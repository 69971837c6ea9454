/**
 * Command-line option lookup shared by every C driver: find_option,
 * read_int and read_string. argv is the argument vector (argc is |argv|);
 * argv[0], the program name, is never matched.
 */
module Options {

  datatype Option<T> = None | Some(value: T)

  /**
   * Index of the first argument at or after position `from` that equals
   * option, or -1 when there is none.
   */
  function FirstFrom(argv: seq<string>, option: string, from: nat): (r: int)
    ensures r == -1 <==> forall i :: from <= i < |argv| ==> argv[i] != option
    ensures r != -1 ==> from <= r < |argv| && argv[r] == option
    ensures forall i :: from <= i < |argv| && (r == -1 || i < r) ==> argv[i] != option
    decreases |argv| - from
  {
    if from >= |argv| then -1
    else if argv[from] == option then from
    else FirstFrom(argv, option, from + 1)
  }

  /** The position find_option reports: the first match among argv[1..], or -1. */
  function FirstOption(argv: seq<string>, option: string): int
  {
    FirstFrom(argv, option, 1)
  }

  /** find_option: a linear scan from argument 1. */
  method FindOption(argv: seq<string>, option: string) returns (r: int)
    ensures r == FirstOption(argv, option)
    ensures r == -1 <==> forall i :: 1 <= i < |argv| ==> argv[i] != option
    ensures r != -1 ==> 1 <= r < |argv| && argv[r] == option
    ensures r != -1 ==> forall i :: 1 <= i < r ==> argv[i] != option
  {
    var i := 1;
    while i < |argv|
      invariant 1 <= i
      invariant forall k :: 1 <= k < i && k < |argv| ==> argv[k] != option
      invariant FirstOption(argv, option) == FirstFrom(argv, option, i)
    {
      if argv[i] == option {
        return i;
      }
      i := i + 1;
    }
    return -1;
  }

  /**
   * read_int: the value after the first occurrence of option, converted by
   * atoi, or default_value when the option is absent or is the last argument.
   */
  method ReadInt(argv: seq<string>, option: string, defaultValue: int, atoi: string -> int) returns (v: int)
    ensures FirstOption(argv, option) == -1 ==> v == defaultValue
    ensures FirstOption(argv, option) == |argv| - 1 ==> v == defaultValue
    ensures 0 <= FirstOption(argv, option) < |argv| - 1 ==>
              v == atoi(argv[FirstOption(argv, option) + 1])
  {
    var iplace := FindOption(argv, option);
    if iplace >= 0 && iplace < |argv| - 1 {
      return atoi(argv[iplace + 1]);
    }
    return defaultValue;
  }

  /**
   * read_string: the argument after the first occurrence of option, or
   * default_value (None stands for a NULL default) when the option is absent
   * or is the last argument.
   */
  method ReadString(argv: seq<string>, option: string, defaultValue: Option<string>) returns (v: Option<string>)
    ensures FirstOption(argv, option) == -1 ==> v == defaultValue
    ensures FirstOption(argv, option) == |argv| - 1 ==> v == defaultValue
    ensures 0 <= FirstOption(argv, option) < |argv| - 1 ==>
              v == Some(argv[FirstOption(argv, option) + 1])
  {
    var iplace := FindOption(argv, option);
    if iplace >= 0 && iplace < |argv| - 1 {
      return Some(argv[iplace + 1]);
    }
    return defaultValue;
  }
}
