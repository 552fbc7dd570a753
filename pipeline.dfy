/**
 * The exported function of nlp.js: the script is split into lines, the lines
 * that mention a duration are kept, and each kept line is turned into the
 * list of scene objects `getObjects` finds in it.
 */
module Pipeline {
  import opened Wrappers
  import opened Text
  import opened Extractors
  import opened Dispatcher

  /** `filter(p => /[0-9]+ (⏲|seconds?|segundos)/.test(p))`. */
  function DurationLines(lines: seq<string>): seq<string> {
    if |lines| == 0 then []
    else (if ContainsDuration(lines[0]) then [lines[0]] else []) + DurationLines(lines[1..])
  }

  /** The lines of `str` the filter keeps, in their order. */
  function KeptLines(str: string): seq<string> {
    DurationLines(Split(str, '\n'))
  }

  /** `map(getObjects)`: the first line that throws makes the whole call throw. */
  function ObjectsOfLines(lines: seq<string>): Result<seq<seq<Descriptor>>, Failure> {
    AllOk(LineResults(lines))
  }

  /** What `getObjects` gives for each line, in order. */
  function LineResults(lines: seq<string>): (rs: seq<Result<seq<Descriptor>, Failure>>)
    ensures |rs| == |lines|
    ensures forall k :: 0 <= k < |lines| ==> rs[k] == Objects(lines[k])
  {
    seq(|lines|, k requires 0 <= k < |lines| => Objects(lines[k]))
  }

  /** The values of a run of calls, or the error of the first call that threw. */
  function AllOk(rs: seq<Result<seq<Descriptor>, Failure>>): Result<seq<seq<Descriptor>>, Failure> {
    if |rs| == 0 then Ok([])
    else
      match rs[0]
      case Err(f) => Err(f)
      case Ok(ds) =>
        match AllOk(rs[1..])
        case Err(f) => Err(f)
        case Ok(rest) => Ok([ds] + rest)
  }

  /** The exported function: one list of objects per kept line, or the error of the first line that throws. */
  function Interpret(str: string): (r: Result<seq<seq<Descriptor>>, Failure>)
    ensures var lines := KeptLines(str);
      r.Ok? <==> forall k :: 0 <= k < |lines| ==> Objects(lines[k]).Ok?
    ensures var lines := KeptLines(str);
      r.Ok? ==> |r.value| == |lines| && forall k :: 0 <= k < |lines| ==> r.value[k] == Objects(lines[k]).value
    ensures var lines := KeptLines(str);
      r.Err? ==> exists k :: (0 <= k < |lines| && Objects(lines[k]) == Err(r.error)
        && forall j :: 0 <= j < k ==> Objects(lines[j]).Ok?)
  {
    AllOkSpec(LineResults(KeptLines(str)));
    ObjectsOfLines(KeptLines(str))
  }

  /**
   * The filter keeps exactly the lines that hold a duration, and it is a
   * filter: it distributes over concatenation, so kept lines keep their order.
   */
  lemma {:induction false} DurationLinesSpec(a: seq<string>, b: seq<string>)
    ensures forall l :: l in DurationLines(a) <==> l in a && ContainsDuration(l)
    ensures DurationLines(a + b) == DurationLines(a) + DurationLines(b)
    ensures |DurationLines(a)| <= |a|
    decreases |a|
  {
    if |a| > 0 {
      DurationLinesSpec(a[1..], b);
      assert (a + b)[1..] == a[1..] + b;
      assert forall l :: l in a <==> l == a[0] || l in a[1..] by {
        assert a == [a[0]] + a[1..];
      }
    } else {
      assert a + b == b;
    }
  }

  /**
   * Every kept line is a whole line of the script, with no line break in it,
   * holding digits, one space and a unit; and a line of the script that holds
   * those is kept.
   */
  lemma KeptLinesSpec(str: string)
    ensures forall l :: l in KeptLines(str) ==>
      l in Split(str, '\n') && '\n' !in l && exists i: nat, j: nat :: DigitsSpaceUnit(l, i, j)
    ensures forall l :: l in Split(str, '\n') && (exists i: nat, j: nat :: DigitsSpaceUnit(l, i, j)) ==> l in KeptLines(str)
    ensures Join(Split(str, '\n'), '\n') == str
  {
    var lines := Split(str, '\n');
    DurationLinesSpec(lines, []);
    SplitJoin(str, '\n');
    forall l | l in lines ensures ContainsDuration(l) <==> exists i: nat, j: nat :: DigitsSpaceUnit(l, i, j) {
      ContainsDurationIff(l);
    }
  }

  /**
   * The call succeeds exactly when every line's call does, and then gives one
   * list per line, in order; otherwise it fails with the error of the first
   * line that fails.
   */
  lemma {:induction false} AllOkSpec(rs: seq<Result<seq<Descriptor>, Failure>>)
    ensures AllOk(rs).Ok? <==> forall k :: 0 <= k < |rs| ==> rs[k].Ok?
    ensures AllOk(rs).Ok? ==>
      |AllOk(rs).value| == |rs| && forall k :: 0 <= k < |rs| ==> AllOk(rs).value[k] == rs[k].value
    ensures AllOk(rs).Err? ==>
      exists k :: 0 <= k < |rs| && rs[k] == Err(AllOk(rs).error) && forall j :: 0 <= j < k ==> rs[j].Ok?
  {
    if |rs| > 0 {
      var rest := rs[1..];
      AllOkSpec(rest);
      assert forall k :: 1 <= k < |rs| ==> rs[k] == rest[k - 1];
      if AllOk(rs).Err? && rs[0].Ok? {
        var k :| 0 <= k < |rest| && rest[k] == Err(AllOk(rest).error) && forall j :: 0 <= j < k ==> rest[j].Ok?;
        assert rs[k + 1] == rest[k];
      }
    }
  }
}
