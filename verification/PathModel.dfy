/** What path normalisation means: slash-separated segments, the fold of `.` and `..`
    over them, and the text of the result. */
module PathModel {

  /** The segment stack of the code has this many places; what does not fit is dropped. */
  const MAX_SEGMENTS: nat := 64

  type Segment = string

  // ----- Segments of a path

  /** The number of characters before the next slash. */
  function SegmentLength(p: string): (n: nat)
    ensures n <= |p|
    ensures '/' !in p[..n]
    ensures n < |p| ==> p[n] == '/'
  {
    if p == "" || p[0] == '/' then 0 else 1 + SegmentLength(p[1..])
  }

  /** The non-empty stretches between slashes. */
  function Segments(p: string): (ss: seq<Segment>)
    decreases |p|
  {
    if p == "" then []
    else if p[0] == '/' then Segments(p[1..])
    else [p[..SegmentLength(p)]] + Segments(p[SegmentLength(p)..])
  }

  predicate IsAbsolute(p: string) {
    p != "" && p[0] == '/'
  }

  // ----- The fold

  function Last(s: seq<Segment>): Segment
    requires s != []
  {
    s[|s| - 1]
  }

  function Pop(s: seq<Segment>): seq<Segment>
    requires s != []
  {
    s[..|s| - 1]
  }

  /** One segment against the stack, whose size is limited to `limit` places. */
  function Apply(absolute: bool, stack: seq<Segment>, seg: Segment, limit: nat): seq<Segment> {
    if seg == "." then stack
    else if seg == ".." && stack != [] && Last(stack) != ".." then Pop(stack)
    else if seg == ".." && absolute then stack
    else if |stack| < limit then stack + [seg]
    else stack
  }

  function Fold(absolute: bool, stack: seq<Segment>, segs: seq<Segment>, limit: nat): seq<Segment>
    decreases |segs|
  {
    if segs == [] then stack else Fold(absolute, Apply(absolute, stack, segs[0], limit), segs[1..], limit)
  }

  // ----- The text of the result

  function Join(segs: seq<Segment>): string {
    if segs == [] then ""
    else if |segs| == 1 then segs[0]
    else segs[0] + "/" + Join(segs[1..])
  }

  function Body(absolute: bool, segs: seq<Segment>): string {
    (if absolute then "/" else "") + Join(segs)
  }

  function Render(absolute: bool, segs: seq<Segment>): string {
    if Body(absolute, segs) == "" then "." else Body(absolute, segs)
  }

  function Stack(p: string): seq<Segment> {
    Fold(IsAbsolute(p), [], Segments(p), MAX_SEGMENTS)
  }

  function Normalized(p: string): string {
    Render(IsAbsolute(p), Stack(p))
  }

  // ----- Canonical results

  ghost predicate ProperSegment(seg: Segment) {
    seg != "" && '/' !in seg
  }

  ghost predicate Proper(segs: seq<Segment>) {
    forall i :: 0 <= i < |segs| ==> ProperSegment(segs[i])
  }

  /** No empty and no `.` segment, and `..` only at the start of a relative path. */
  ghost predicate CanonicalStack(absolute: bool, st: seq<Segment>) {
    && Proper(st)
    && (forall i :: 0 <= i < |st| ==> st[i] != ".")
    && (forall i, j :: 0 <= j <= i < |st| && st[i] == ".." ==> !absolute && st[j] == "..")
  }

  ghost predicate Canonical(p: string) {
    exists absolute: bool, st: seq<Segment> ::
      CanonicalStack(absolute, st) && |st| <= 64 && p == Render(absolute, st)
  }

  lemma {:induction false} SegmentsProper(p: string)
    ensures Proper(Segments(p))
    decreases |p|
  {
    if p != "" {
      if p[0] == '/' {
        SegmentsProper(p[1..]);
      } else {
        SegmentsProper(p[SegmentLength(p)..]);
      }
    }
  }

  lemma {:induction false} FoldCanonical(absolute: bool, st: seq<Segment>, segs: seq<Segment>, limit: nat)
    requires CanonicalStack(absolute, st) && Proper(segs) && |st| <= limit
    ensures CanonicalStack(absolute, Fold(absolute, st, segs, limit))
    ensures |Fold(absolute, st, segs, limit)| <= limit
    decreases |segs|
  {
    if segs != [] {
      FoldCanonical(absolute, Apply(absolute, st, segs[0], limit), segs[1..], limit);
    }
  }

  /** The result of normalisation is canonical. */
  lemma {:induction false} NormalizedCanonical(p: string)
    ensures Canonical(Normalized(p))
  {
    SegmentsProper(p);
    FoldCanonical(IsAbsolute(p), [], Segments(p), MAX_SEGMENTS);
  }

  /** A canonical stack folds to itself. */
  lemma {:induction false} FoldOfCanonical(absolute: bool, st: seq<Segment>, i: nat, limit: nat)
    requires CanonicalStack(absolute, st) && i <= |st| <= limit
    ensures Fold(absolute, st[..i], st[i..], limit) == st
    decreases |st| - i
  {
    if i < |st| {
      assert st[i..][0] == st[i] && st[i..][1..] == st[i + 1..];
      assert st[..i] + [st[i]] == st[..i + 1];
      FoldOfCanonical(absolute, st, i + 1, limit);
    } else {
      assert st[..i] == st && st[i..] == [];
    }
  }

  lemma {:induction false} SegmentThenRest(seg: Segment, rest: string)
    requires ProperSegment(seg) && (rest == "" || rest[0] == '/')
    ensures Segments(seg + rest) == [seg] + Segments(rest)
  {
    LengthOfSegment(seg, rest);
    assert (seg + rest)[..|seg|] == seg && (seg + rest)[|seg|..] == rest;
  }

  lemma {:induction false} LengthOfSegment(seg: Segment, rest: string)
    requires '/' !in seg && (rest == "" || rest[0] == '/')
    ensures SegmentLength(seg + rest) == |seg|
  {
    if seg == "" {
      assert seg + rest == rest;
    } else {
      assert (seg + rest)[1..] == seg[1..] + rest;
      LengthOfSegment(seg[1..], rest);
    }
  }

  /** A path is cut at every slash, wherever it stands; what has no slash is one segment, or
      none if it is empty. */
  lemma {:induction false} SegmentsAtSlash(a: string, b: string)
    ensures Segments(a + "/" + b) == Segments(a) + Segments(b)
    ensures '/' !in a ==> Segments(a) == if a == "" then [] else [a]
  {
    CutAtSlash(a, b);
    if a != "" && '/' !in a {
      SegmentThenRest(a, "");
      assert a + "" == a;
    }
  }

  lemma {:induction false} CutAtSlash(a: string, b: string)
    ensures Segments(a + "/" + b) == Segments(a) + Segments(b)
    decreases |a|
  {
    if a == "" {
      assert a + "/" + b == "/" + b && ("/" + b)[1..] == b;
    } else if a[0] == '/' {
      assert (a + "/" + b)[1..] == a[1..] + "/" + b;
      CutAtSlash(a[1..], b);
    } else {
      var n := SegmentLength(a);
      var seg, rest := a[..n], a[n..];
      assert a == seg + rest && a + "/" + b == seg + (rest + "/" + b);
      SegmentThenRest(seg, rest);
      SegmentThenRest(seg, rest + "/" + b);
      CutAtSlash(rest, b);
    }
  }

  /** Splitting a joined list gives the list back. */
  lemma {:induction false} SegmentsOfJoin(st: seq<Segment>)
    requires Proper(st)
    ensures Segments(Join(st)) == st
  {
    if |st| == 1 {
      SegmentThenRest(st[0], "");
      assert st[0] + "" == st[0];
    } else if |st| > 1 {
      var rest := "/" + Join(st[1..]);
      assert Join(st) == st[0] + rest;
      SegmentThenRest(st[0], rest);
      assert rest[1..] == Join(st[1..]);
      SegmentsOfJoin(st[1..]);
    }
  }

  lemma {:induction false} SegmentsOfRender(absolute: bool, st: seq<Segment>)
    requires CanonicalStack(absolute, st)
    ensures Segments(Render(absolute, st)) == if !absolute && st == [] then ["."] else st
    ensures IsAbsolute(Render(absolute, st)) == absolute
  {
    SegmentsOfJoin(st);
    if absolute {
      assert Body(absolute, st)[1..] == Join(st);
    } else {
      assert Body(absolute, st) == Join(st);
      if st == [] {
        SegmentThenRest(".", "");
        assert "." + "" == ".";
      }
    }
  }

  /** The normal form starts with a slash just when the path does. */
  lemma {:induction false} StaysAbsolute(p: string)
    ensures Normalized(p) != "" && (Normalized(p)[0] == '/' <==> p != "" && p[0] == '/')
  {
    SegmentsProper(p);
    FoldCanonical(IsAbsolute(p), [], Segments(p), MAX_SEGMENTS);
    SegmentsOfRender(IsAbsolute(p), Stack(p));
  }

  /** Canonical paths are left alone. */
  lemma {:induction false} NormalizedOfCanonical(p: string)
    requires Canonical(p)
    ensures Normalized(p) == p
  {
    var absolute: bool, st: seq<Segment> :|
      CanonicalStack(absolute, st) && |st| <= 64 && p == Render(absolute, st);
    SegmentsOfRender(absolute, st);
    FoldOfCanonical(absolute, st, 0, MAX_SEGMENTS);
    assert st[..0] == [] && st[0..] == st;
  }

  /** The fixed points of normalisation are exactly the canonical paths. */
  lemma {:induction false} FixedIffCanonical(p: string)
    ensures Normalized(p) == p <==> Canonical(p)
  {
    if Canonical(p) {
      NormalizedOfCanonical(p);
    }
    NormalizedCanonical(p);
  }

  /** Normalising twice is normalising once, for every path. */
  lemma {:induction false} Idempotent(p: string)
    ensures Normalized(Normalized(p)) == Normalized(p)
  {
    NormalizedCanonical(p);
    NormalizedOfCanonical(Normalized(p));
  }

  // ----- Length

  /** The characters of the segments, with one separator each. */
  function Weight(segs: seq<Segment>): nat {
    if segs == [] then 0 else Weight(Pop(segs)) + |Last(segs)| + 1
  }

  lemma {:induction false} WeightFront(segs: seq<Segment>)
    requires segs != []
    ensures Weight(segs) == |segs[0]| + 1 + Weight(segs[1..])
  {
    if |segs| > 1 {
      WeightFront(Pop(segs));
      assert Pop(segs)[1..] == Pop(segs[1..]);
    }
  }

  lemma {:induction false} JoinLength(segs: seq<Segment>)
    ensures |Join(segs)| == if segs == [] then 0 else Weight(segs) - 1
  {
    if segs != [] {
      WeightFront(segs);
      JoinLength(segs[1..]);
    }
  }

  lemma {:induction false} FoldWeight(absolute: bool, st: seq<Segment>, segs: seq<Segment>, limit: nat)
    ensures Weight(Fold(absolute, st, segs, limit)) <= Weight(st) + Weight(segs)
    decreases |segs|
  {
    if segs != [] {
      WeightFront(segs);
      var next := Apply(absolute, st, segs[0], limit);
      if next == st + [segs[0]] {
        assert Pop(next) == st;
      }
      FoldWeight(absolute, next, segs[1..], limit);
    }
  }

  lemma {:induction false} SegmentsWeight(p: string)
    ensures Weight(Segments(p)) <= |p| + 1
    ensures p != "" && p[0] == '/' ==> Weight(Segments(p)) <= |p|
    decreases |p|
  {
    if p != "" {
      if p[0] == '/' {
        SegmentsWeight(p[1..]);
      } else {
        var n := SegmentLength(p);
        SegmentsWeight(p[n..]);
        WeightFront(Segments(p));
        assert Segments(p)[1..] == Segments(p[n..]);
      }
    }
  }

  /** A path never gets longer, the empty path aside, which becomes a dot. */
  lemma {:induction false} NeverLonger(p: string)
    ensures p != "" ==> |Normalized(p)| <= |p|
    ensures Normalized("") == "."
  {
    SegmentsWeight(p);
    FoldWeight(IsAbsolute(p), [], Segments(p), MAX_SEGMENTS);
    JoinLength(Stack(p));
  }

  // ----- Where a path leads

  /** Following segments from a directory, given by its own path from the root. */
  function Walk(dir: seq<Segment>, segs: seq<Segment>): seq<Segment>
    decreases |segs|
  {
    if segs == [] then dir else Walk(WalkOne(dir, segs[0]), segs[1..])
  }

  function WalkOne(dir: seq<Segment>, seg: Segment): seq<Segment> {
    if seg == "." then dir
    else if seg == ".." then (if dir == [] then [] else Pop(dir))
    else dir + [seg]
  }

  /** Where path `p` leads from working directory `cwd`, links aside. */
  function Target(cwd: seq<Segment>, p: string): seq<Segment> {
    Walk(if IsAbsolute(p) then [] else cwd, Segments(p))
  }

  lemma {:induction false} WalkAppend(dir: seq<Segment>, a: seq<Segment>, seg: Segment)
    ensures Walk(dir, a + [seg]) == WalkOne(Walk(dir, a), seg)
    decreases |a|
  {
    if a == [] {
      assert a + [seg] == [seg];
    } else {
      assert (a + [seg])[1..] == a[1..] + [seg];
      WalkAppend(WalkOne(dir, a[0]), a[1..], seg);
    }
  }

  // ----- Exactly when the limit on the depth makes no difference

  /** Before any limit, the path never nests deeper than `limit`. */
  ghost predicate Shallow(absolute: bool, segs: seq<Segment>, limit: nat) {
    forall n: nat :: n <= |segs| ==> |Fold(absolute, [], segs[..n], |segs|)| <= limit
  }

  /** After `n` segments, the stack with the limit is the stack without one. */
  ghost predicate AgreesAfter(absolute: bool, segs: seq<Segment>, n: nat, limit: nat)
    requires n <= |segs|
  {
    Fold(absolute, [], segs[..n], limit) == Fold(absolute, [], segs[..n], |segs|)
  }

  lemma {:induction false} FoldNext(absolute: bool, st: seq<Segment>, segs: seq<Segment>, n: nat, limit: nat)
    requires n < |segs|
    ensures Fold(absolute, st, segs[..n + 1], limit) == Apply(absolute, Fold(absolute, st, segs[..n], limit), segs[n], limit)
    decreases n
  {
    if n == 0 {
      assert segs[..1] == [segs[0]];
    } else {
      assert segs[..n + 1][1..] == segs[1..][..n] && segs[..n][1..] == segs[1..][..n - 1];
      FoldNext(absolute, Apply(absolute, st, segs[0], limit), segs[1..], n - 1, limit);
    }
  }

  lemma {:induction false} FoldSize(absolute: bool, segs: seq<Segment>, n: nat)
    requires n <= |segs|
    ensures |Fold(absolute, [], segs[..n], |segs|)| <= n
  {
    if n > 0 {
      FoldNext(absolute, [], segs, n - 1, |segs|);
      FoldSize(absolute, segs, n - 1);
    }
  }

  lemma {:induction false} FoldWithin(absolute: bool, segs: seq<Segment>, n: nat, limit: nat)
    requires n <= |segs|
    ensures |Fold(absolute, [], segs[..n], limit)| <= limit
  {
    if n > 0 {
      FoldNext(absolute, [], segs, n - 1, limit);
      FoldWithin(absolute, segs, n - 1, limit);
    }
  }

  lemma {:induction false} AgreeWhileShallow(absolute: bool, segs: seq<Segment>, n: nat, limit: nat)
    requires n <= |segs|
    requires forall k: nat :: k <= n ==> |Fold(absolute, [], segs[..k], |segs|)| <= limit
    ensures AgreesAfter(absolute, segs, n, limit)
  {
    if n > 0 {
      AgreeWhileShallow(absolute, segs, n - 1, limit);
      FoldNext(absolute, [], segs, n - 1, limit);
      FoldNext(absolute, [], segs, n - 1, |segs|);
      FoldSize(absolute, segs, n - 1);
      assert |Fold(absolute, [], segs[..n], |segs|)| <= limit;
    }
  }

  /** The two stacks agree all the way if and only if the path never nests deeper than the
      limit. (At the end alone they may agree by accident.) */
  lemma {:induction false} LimitHarmlessIff(absolute: bool, segs: seq<Segment>, limit: nat)
    ensures (forall n: nat :: n <= |segs| ==> AgreesAfter(absolute, segs, n, limit))
       <==> Shallow(absolute, segs, limit)
  {
    if Shallow(absolute, segs, limit) {
      forall n: nat | n <= |segs|
        ensures AgreesAfter(absolute, segs, n, limit)
      {
        AgreeWhileShallow(absolute, segs, n, limit);
      }
    }
    if forall n: nat :: n <= |segs| ==> AgreesAfter(absolute, segs, n, limit) {
      forall n: nat | n <= |segs|
        ensures |Fold(absolute, [], segs[..n], |segs|)| <= limit
      {
        assert AgreesAfter(absolute, segs, n, limit);
        FoldWithin(absolute, segs, n, limit);
      }
    }
  }

  /** Leaving the directory that was entered last. */
  lemma {:induction false} WalkBack(dir: seq<Segment>, st: seq<Segment>)
    requires st != [] && Last(st) != "." && Last(st) != ".."
    ensures Walk(dir, Pop(st)) == WalkOne(Walk(dir, st), "..")
  {
    WalkAppend(dir, Pop(st), Last(st));
    assert Pop(st) + [Last(st)] == st;
    assert Pop(Walk(dir, Pop(st)) + [Last(st)]) == Walk(dir, Pop(st));
  }

  /** One step of the fold does not change where the stack leads, if there is room. */
  lemma {:induction false} ApplyWalk(absolute: bool, dir: seq<Segment>, st: seq<Segment>, seg: Segment, limit: nat)
    requires absolute ==> dir == []
    requires CanonicalStack(absolute, st) && |st| < limit
    ensures Walk(dir, Apply(absolute, st, seg, limit)) == WalkOne(Walk(dir, st), seg)
  {
    if seg == ".." && st != [] && Last(st) != ".." {
      WalkBack(dir, st);
    } else if seg == ".." && absolute {
      assert st == [];
    } else if seg != "." {
      WalkAppend(dir, st, seg);
    }
  }

  /** Without a limit in the way, the folded stack leads where the segments lead. */
  lemma {:induction false} FoldWalk(absolute: bool, dir: seq<Segment>, st: seq<Segment>, segs: seq<Segment>, limit: nat)
    requires absolute ==> dir == []
    requires CanonicalStack(absolute, st) && Proper(segs) && |st| + |segs| <= limit
    ensures Walk(dir, Fold(absolute, st, segs, limit)) == Walk(Walk(dir, st), segs)
    decreases |segs|
  {
    if segs != [] {
      ApplyWalk(absolute, dir, st, segs[0], limit);
      FoldWalk(absolute, dir, Apply(absolute, st, segs[0], limit), segs[1..], limit);
    }
  }

  // ----- Exactly when the meaning is kept

  /** A directory, as its path from the root: no `.` and no `..`. */
  ghost predicate Plain(dir: seq<Segment>) {
    Proper(dir) && "." !in dir && ".." !in dir
  }

  /** After `n` segments, the stack with the limit leads from `dir` where the segments do. */
  ghost predicate LeadsRight(absolute: bool, segs: seq<Segment>, n: nat, dir: seq<Segment>, limit: nat)
    requires n <= |segs|
  {
    Walk(dir, Fold(absolute, [], segs[..n], limit)) == Walk(dir, segs[..n])
  }

  ghost predicate AlwaysLeadsRight(absolute: bool, segs: seq<Segment>, limit: nat) {
    forall n: nat, dir: seq<Segment> ::
      n <= |segs| && Plain(dir) && (absolute ==> dir == []) ==> LeadsRight(absolute, segs, n, dir, limit)
  }

  /** Every prefix of a path leads to the same place before and after the fold, from every
      directory, if and only if the path never nests deeper than the limit. */
  lemma {:induction false} MeaningKeptIff(absolute: bool, segs: seq<Segment>, limit: nat)
    requires Proper(segs)
    ensures AlwaysLeadsRight(absolute, segs, limit) <==> Shallow(absolute, segs, limit)
  {
    if Shallow(absolute, segs, limit) {
      forall n: nat, dir: seq<Segment> | n <= |segs| && Plain(dir) && (absolute ==> dir == [])
        ensures LeadsRight(absolute, segs, n, dir, limit)
      {
        AgreeWhileShallow(absolute, segs, n, limit);
        FoldWalk(absolute, dir, [], segs[..n], |segs|);
      }
    } else {
      var n := FirstTooDeep(absolute, segs, limit);
      var dir := if absolute then [] else Deep(limit + 1);
      DroppedSegmentMatters(absolute, segs, n, dir, limit);
      assert !LeadsRight(absolute, segs, n, dir, limit);
    }
  }

  /** The first prefix that is too deep. */
  lemma {:induction false} FirstTooDeep(absolute: bool, segs: seq<Segment>, limit: nat) returns (n: nat)
    requires !Shallow(absolute, segs, limit)
    ensures n <= |segs| && |Fold(absolute, [], segs[..n], |segs|)| > limit
    ensures forall k: nat :: k < n ==> |Fold(absolute, [], segs[..k], |segs|)| <= limit
  {
    n := 0;
    while |Fold(absolute, [], segs[..n], |segs|)| <= limit
      invariant n <= |segs|
      invariant forall k: nat :: k < n ==> |Fold(absolute, [], segs[..k], |segs|)| <= limit
      decreases |segs| - n
    {
      n := n + 1;
    }
  }

  /** There a segment is dropped that would have led elsewhere. */
  lemma {:induction false} DroppedSegmentMatters(absolute: bool, segs: seq<Segment>, n: nat, dir: seq<Segment>, limit: nat)
    requires Proper(segs) && n <= |segs| && |Fold(absolute, [], segs[..n], |segs|)| > limit
    requires forall k: nat :: k < n ==> |Fold(absolute, [], segs[..k], |segs|)| <= limit
    requires if absolute then dir == [] else |dir| > limit
    ensures !LeadsRight(absolute, segs, n, dir, limit)
  {
    var st, seg := Fold(absolute, [], segs[..n], limit), segs[n - 1];
    DroppedThere(absolute, segs, n, limit);
    FoldWalk(absolute, dir, [], segs[..n - 1], |segs|);
    assert segs[..n] == segs[..n - 1] + [seg];
    WalkAppend(dir, segs[..n - 1], seg);
    WalkAtLeast(dir, st);
  }

  lemma {:induction false} DroppedThere(absolute: bool, segs: seq<Segment>, n: nat, limit: nat)
    requires n <= |segs| && |Fold(absolute, [], segs[..n], |segs|)| > limit
    requires forall k: nat :: k < n ==> |Fold(absolute, [], segs[..k], |segs|)| <= limit
    ensures n > 0 && segs[n - 1] != "." && (absolute ==> segs[n - 1] != "..")
    ensures var st := Fold(absolute, [], segs[..n], limit);
            |st| <= limit && st == Fold(absolute, [], segs[..n - 1], |segs|)
  {
    AgreeWhileShallow(absolute, segs, n - 1, limit);
    FoldNext(absolute, [], segs, n - 1, limit);
    FoldNext(absolute, [], segs, n - 1, |segs|);
  }

  lemma {:induction false} WalkAtLeast(dir: seq<Segment>, segs: seq<Segment>)
    ensures |Walk(dir, segs)| >= |dir| - |segs|
    decreases |segs|
  {
    if segs != [] {
      WalkAtLeast(WalkOne(dir, segs[0]), segs[1..]);
    }
  }

  /** The stack of a path without any limit. */
  function FullStack(p: string): seq<Segment> {
    Fold(IsAbsolute(p), [], Segments(p), |Segments(p)|)
  }

  /** Where a path and its normal form lead, in terms of the two stacks. */
  lemma {:induction false} TargetsOfStacks(cwd: seq<Segment>, p: string)
    ensures var dir := if IsAbsolute(p) then [] else cwd;
            && Target(cwd, p) == Walk(dir, FullStack(p))
            && Target(cwd, Normalized(p)) == Walk(dir, Stack(p))
  {
    var absolute, segs, st := IsAbsolute(p), Segments(p), Stack(p);
    var dir := if absolute then [] else cwd;
    SegmentsProper(p);
    FoldWalk(absolute, dir, [], segs, |segs|);
    FoldCanonical(absolute, [], segs, MAX_SEGMENTS);
    SegmentsOfRender(absolute, st);
    if !absolute && st == [] {
      assert Walk(dir, ["."]) == dir;
    }
  }

  /** A path and its normal form lead to the same place from every directory if and only if
      the stack at the end is the one that a stack without a limit would have. */
  lemma {:induction false} TargetKeptIff(p: string)
    ensures (forall cwd :: Plain(cwd) ==> Target(cwd, Normalized(p)) == Target(cwd, p)) <==> Stack(p) == FullStack(p)
  {
    if Stack(p) == FullStack(p) {
      forall cwd
        ensures Target(cwd, Normalized(p)) == Target(cwd, p)
      {
        TargetsOfStacks(cwd, p);
      }
    } else {
      SegmentsProper(p);
      FoldCanonical(IsAbsolute(p), [], Segments(p), MAX_SEGMENTS);
      FoldCanonical(IsAbsolute(p), [], Segments(p), |Segments(p)|);
      var cwd := Distinguishing(IsAbsolute(p), Stack(p), FullStack(p));
      TargetsOfStacks(cwd, p);
    }
  }

  /** A path that never nests deeper than the limit and its normal form lead to the same
      place from every working directory. */
  lemma {:induction false} MeaningPreserved(cwd: seq<Segment>, p: string)
    requires Shallow(IsAbsolute(p), Segments(p), 64)
    ensures Target(cwd, Normalized(p)) == Target(cwd, p)
  {
    AgreeWhileShallow(IsAbsolute(p), Segments(p), |Segments(p)|, MAX_SEGMENTS);
    assert Segments(p)[..|Segments(p)|] == Segments(p);
    TargetsOfStacks(cwd, p);
  }

  // ----- Different stacks lead to different places

  /** The leading `..` of a stack. */
  function Ups(st: seq<Segment>): (n: nat)
    ensures n <= |st| && forall i :: 0 <= i < n ==> st[i] == ".."
  {
    if st == [] || st[0] != ".." then 0 else 1 + Ups(st[1..])
  }

  /** Names lead down. */
  lemma {:induction false} WalkNames(dir: seq<Segment>, names: seq<Segment>)
    requires "." !in names && ".." !in names
    ensures Walk(dir, names) == dir + names
    decreases |names|
  {
    if names != [] {
      WalkNames(dir + [names[0]], names[1..]);
    }
  }

  /** Behind its leading `..` a canonical stack has only names. */
  lemma {:induction false} NamesAfterUps(absolute: bool, st: seq<Segment>)
    requires CanonicalStack(absolute, st)
    ensures "." !in st[Ups(st)..] && ".." !in st[Ups(st)..]
    ensures absolute ==> Ups(st) == 0
  {
    if ".." in st[Ups(st)..] {
      var i :| Ups(st) <= i < |st| && st[i] == "..";
      assert forall j :: 0 <= j <= i ==> st[j] == "..";
      UpsAll(st, i + 1);
    }
  }

  lemma {:induction false} UpsAll(st: seq<Segment>, n: nat)
    requires n <= |st| && forall j :: 0 <= j < n ==> st[j] == ".."
    ensures Ups(st) >= n
    decreases |st|
  {
    if n > 0 {
      UpsAll(st[1..], n - 1);
    }
  }

  lemma {:induction false} WalkStack(absolute: bool, dir: seq<Segment>, st: seq<Segment>)
    requires CanonicalStack(absolute, st) && Ups(st) <= |dir|
    ensures Walk(dir, st) == dir[..|dir| - Ups(st)] + st[Ups(st)..]
    decreases |st|
  {
    if Ups(st) == 0 {
      NamesAfterUps(absolute, st);
      WalkNames(dir, st);
    } else {
      WalkStack(absolute, Pop(dir), st[1..]);
    }
  }

  /** A name that is none of these segments. */
  function NewName(segs: seq<Segment>): Segment {
    seq(Weight(segs) + 1, _ => 'a')
  }

  lemma {:induction false} NewNameIsNew(segs: seq<Segment>)
    ensures NewName(segs) !in segs && ProperSegment(NewName(segs))
    ensures NewName(segs)[0] == 'a'
  {
    forall i | 0 <= i < |segs|
      ensures |segs[i]| <= Weight(segs)
    {
      WeightOfEach(segs, i);
    }
  }

  lemma {:induction false} WeightOfEach(segs: seq<Segment>, i: nat)
    requires i < |segs|
    ensures |segs[i]| <= Weight(segs)
    decreases |segs|
  {
    if segs != [] {
      WeightFront(segs);
      if i > 0 { WeightOfEach(segs[1..], i - 1); }
    }
  }

  /** A directory from which two different canonical stacks lead to different places. */
  lemma {:induction false} Distinguishing(absolute: bool, a: seq<Segment>, b: seq<Segment>) returns (cwd: seq<Segment>)
    requires CanonicalStack(absolute, a) && CanonicalStack(absolute, b) && a != b
    ensures Plain(cwd)
    ensures var dir := if absolute then [] else cwd; Walk(dir, a) != Walk(dir, b)
  {
    if absolute {
      cwd := [];
      AbsoluteStack(a);
      AbsoluteStack(b);
    } else {
      var name := NewName(a + b);
      NewNameIsNew(a + b);
      cwd := seq(|a| + |b|, _ => name);
      assert Plain(cwd) by {
        assert name != "." && name != "..";
        assert forall i :: 0 <= i < |cwd| ==> cwd[i] == name;
      }
      WalkStack(false, cwd, a);
      WalkStack(false, cwd, b);
      RelativeDiffer(name, cwd, a, b);
    }
  }

  lemma {:induction false} AbsoluteStack(st: seq<Segment>)
    requires CanonicalStack(true, st)
    ensures Walk([], st) == st
  {
    NamesAfterUps(true, st);
    assert st[0..] == st;
    WalkNames([], st);
  }

  lemma {:induction false} RelativeDiffer(name: Segment, cwd: seq<Segment>, a: seq<Segment>, b: seq<Segment>)
    requires Ups(a) <= |cwd| && Ups(b) <= |cwd| && name !in a + b && a != b
    requires forall i :: 0 <= i < |cwd| ==> cwd[i] == name
    ensures cwd[..|cwd| - Ups(a)] + a[Ups(a)..] != cwd[..|cwd| - Ups(b)] + b[Ups(b)..]
  {
    if Ups(a) < Ups(b) {
      DepthsDiffer(name, cwd, a, b);
    } else if Ups(b) < Ups(a) {
      DepthsDiffer(name, cwd, b, a);
    } else if cwd[..|cwd| - Ups(a)] + a[Ups(a)..] == cwd[..|cwd| - Ups(b)] + b[Ups(b)..] {
      SameDepth(cwd[..|cwd| - Ups(a)], a, b);
      assert false;
    }
  }

  lemma {:induction false} DepthsDiffer(name: Segment, cwd: seq<Segment>, a: seq<Segment>, b: seq<Segment>)
    requires Ups(a) < Ups(b) <= |cwd| && name !in b && forall i :: 0 <= i < |cwd| ==> cwd[i] == name
    ensures cwd[..|cwd| - Ups(a)] + a[Ups(a)..] != cwd[..|cwd| - Ups(b)] + b[Ups(b)..]
  {
    var k := |cwd| - Ups(b);
    var x, y := cwd[..|cwd| - Ups(a)] + a[Ups(a)..], cwd[..k] + b[Ups(b)..];
    assert x[k] == name;
    if |x| == |y| {
      assert y[k] == b[Ups(b)];
    }
  }

  lemma {:induction false} SameDepth(top: seq<Segment>, a: seq<Segment>, b: seq<Segment>)
    requires Ups(a) == Ups(b) && top + a[Ups(a)..] == top + b[Ups(b)..]
    ensures a == b
  {
    var n := Ups(a);
    assert a[n..] == (top + a[n..])[|top|..] == (top + b[n..])[|top|..] == b[n..];
    assert a[..n] == b[..n];
    assert a == a[..n] + a[n..] && b == b[..n] + b[n..];
  }

  /** A relative path of n segments "a". */
  function Deep(n: nat): seq<Segment> {
    seq(n, _ => "a")
  }

  lemma {:induction false} DeepSegments(n: nat)
    ensures Proper(Deep(n)) && CanonicalStack(false, Deep(n)) && Segments(Join(Deep(n))) == Deep(n)
    ensures n > 0 ==> !IsAbsolute(Join(Deep(n))) && Render(false, Deep(n)) == Join(Deep(n))
  {
    SegmentsOfJoin(Deep(n));
  }

  /** One level below the limit, the last segment is dropped. */
  lemma {:induction false} DeepStack(n: nat)
    ensures Fold(false, [], Deep(n + 1), n) == Deep(n)
  {
    DeepSegments(n);
    FoldOfCanonical(false, Deep(n), 0, n);
    assert Deep(n)[..0] == [] && Deep(n)[0..] == Deep(n);
    assert Deep(n + 1)[..n] == Deep(n) && Deep(n + 1)[..n + 1] == Deep(n + 1);
    FoldNext(false, [], Deep(n + 1), n, n);
  }

  /** Beyond the limit the meaning is lost: 65 nested directories normalise to 64. */
  lemma {:induction false} TooDeepLosesMeaning()
    ensures var p := Join(Deep(65));
            && Normalized(p) == Join(Deep(64))
            && Target([], Normalized(p)) != Target([], p)
  {
    OneTooDeep(64);
  }

  lemma {:induction false} OneTooDeep(n: nat)
    requires n == MAX_SEGMENTS
    ensures var p := Join(Deep(n + 1));
            && Normalized(p) == Join(Deep(n))
            && Target([], Normalized(p)) != Target([], p)
  {
    DeepSegments(n + 1);
    DeepSegments(n);
    DeepStack(n);
    WalkDown([], Deep(n));
    WalkDown([], Deep(n + 1));
  }

  lemma {:induction false} WalkDown(dir: seq<Segment>, segs: seq<Segment>)
    requires forall i :: 0 <= i < |segs| ==> segs[i] == "a"
    ensures |Walk(dir, segs)| == |dir| + |segs|
    decreases |segs|
  {
    if segs != [] {
      WalkDown(WalkOne(dir, segs[0]), segs[1..]);
    }
  }
}
