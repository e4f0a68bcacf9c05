/** The two options that `Main` reads out of its command-line arguments
    before capturing: the filter expression and the packet-count limit. */
module Options {
  import opened Int32
  import CaptureGate

  datatype Option<T> = None | Some(value: T)

  /** The packet limit `Main` ends up with: a value for `maxPacketCount`, or
      the argument text on which `int.Parse` threw. */
  datatype LimitResult = Limit(maxPacketCount: int32) | ParseFailed(text: string)

  /** i is the position of the first occurrence of value in args. */
  predicate IsFirst(args: seq<string>, value: string, i: int) {
    0 <= i < |args| && args[i] == value && value !in args[..i]
  }

  /** `Array.IndexOf(args, value)`: the index of the first element equal to
      value, or -1 when there is none. */
  function IndexOf(args: seq<string>, value: string): (i: int)
    ensures i == -1 <==> value !in args
    ensures i != -1 ==> IsFirst(args, value, i)
  {
    if args == [] then -1
    else if args[0] == value then 0
    else
      var j := IndexOf(args[1..], value);
      assert args == [args[0]] + args[1..];
      if j == -1 then -1
      else
        assert args[..j + 1] == [args[0]] + args[1..][..j];
        j + 1
  }

  /** `int.Parse(text)` given as parse: the number, or the text when it throws. */
  function ParseLimit(parse: string -> Option<int32>, text: string): (r: LimitResult)
    ensures r.ParseFailed? <==> parse(text).None?
    ensures r.Limit? ==> r.maxPacketCount == parse(text).value
    ensures r.ParseFailed? ==> r.text == text
  {
    match parse(text)
    case Some(n) => Limit(n)
    case None => ParseFailed(text)
  }

  /** The filter expression: the third argument when the second is `-t`,
      and the empty string (no filtering) otherwise. */
  method ReadFilter(args: seq<string>) returns (filter: string)
    ensures |args| >= 3 && args[1] == "-t" ==> filter == args[2]
    ensures !(|args| >= 3 && args[1] == "-t") ==> filter == ""
    ensures filter != "" ==> filter in args
  {
    filter := "";
    if |args| >= 3 && args[1] == "-t" {
      filter := args[2];
    }
  }

  /** The packet limit: the option is looked for first as `-n` and, only when
      `-n` is absent, as `--num-packets`; at its first occurrence the next
      argument, if there is one, is parsed with parse. Otherwise the limit
      stays "no limit". */
  method ReadPacketLimit(args: seq<string>, parse: string -> Option<int32>) returns (limit: LimitResult)
    // `-n` wins whenever it is present, even with `--num-packets` also given
    ensures forall i :: IsFirst(args, "-n", i) && i + 1 < |args| ==>
              limit == ParseLimit(parse, args[i + 1])
    ensures forall i :: IsFirst(args, "-n", i) && i + 1 == |args| ==>
              limit == Limit(CaptureGate.NoLimit)
    ensures "-n" !in args ==>
              forall i :: IsFirst(args, "--num-packets", i) && i + 1 < |args| ==>
                limit == ParseLimit(parse, args[i + 1])
    ensures "-n" !in args ==>
              forall i :: IsFirst(args, "--num-packets", i) && i + 1 == |args| ==>
                limit == Limit(CaptureGate.NoLimit)
    ensures "-n" !in args && "--num-packets" !in args ==> limit == Limit(CaptureGate.NoLimit)
  {
    var packetCountIndex := IndexOf(args, "-n");
    if packetCountIndex == -1 {
      packetCountIndex := IndexOf(args, "--num-packets");
    }
    limit := Limit(CaptureGate.NoLimit);
    if packetCountIndex != -1 && |args| > packetCountIndex + 1 {
      limit := ParseLimit(parse, args[packetCountIndex + 1]);
    }
  }

  /** The capture set-up of `Main`: the filter, the packet limit read from
      args, and a gate with that limit. When `int.Parse` throws on the
      limit's text the program ends there and no gate is made. */
  method Configure(args: seq<string>, parse: string -> Option<int32>)
    returns (filter: string, limit: LimitResult, gate: CaptureGate.Gate?)
    ensures |args| >= 3 && args[1] == "-t" ==> filter == args[2]
    ensures !(|args| >= 3 && args[1] == "-t") ==> filter == ""
    ensures forall i :: IsFirst(args, "-n", i) && i + 1 < |args| ==>
              limit == ParseLimit(parse, args[i + 1])
    ensures forall i :: IsFirst(args, "-n", i) && i + 1 == |args| ==>
              limit == Limit(CaptureGate.NoLimit)
    ensures "-n" !in args ==>
              forall i :: IsFirst(args, "--num-packets", i) && i + 1 < |args| ==>
                limit == ParseLimit(parse, args[i + 1])
    ensures "-n" !in args ==>
              forall i :: IsFirst(args, "--num-packets", i) && i + 1 == |args| ==>
                limit == Limit(CaptureGate.NoLimit)
    ensures "-n" !in args && "--num-packets" !in args ==> limit == Limit(CaptureGate.NoLimit)
    ensures gate == null <==> limit.ParseFailed?
    ensures gate != null ==> fresh(gate) && gate.Valid() && gate.verdicts == []
    ensures gate != null ==> gate.State() == CaptureGate.Initial(limit.maxPacketCount)
  {
    filter := ReadFilter(args);
    limit := ReadPacketLimit(args, parse);
    match limit
    case Limit(n) =>
      gate := new CaptureGate.Gate(n);
    case ParseFailed(_) =>
      gate := null;
  }
}
