/** The path normaliser: it scans a copy of the path in place, cutting it into C strings,
    keeps a stack of pointers to the segments, and prints the stack into a buffer. */
module PathNormalize {
  import opened PathModel

  const NUL: char := '\0'
  const TEMP_SIZE: nat := 1024

  /** A segment pointer: into the scanned copy, or to the literal "..". */
  datatype SegmentPtr = InTemp(at: nat) | DotDot

  /** The C string that starts at `at`. */
  function CString(buffer: seq<char>, at: nat): (s: string)
    requires at <= |buffer|
    decreases |buffer| - at
  {
    if at == |buffer| || buffer[at] == NUL then "" else [buffer[at]] + CString(buffer, at + 1)
  }

  lemma {:induction false} CStringIs(buffer: seq<char>, at: nat, s: string)
    requires at + |s| < |buffer| && buffer[at + |s|] == NUL && NUL !in s
    requires forall i :: 0 <= i < |s| ==> buffer[at + i] == s[i]
    ensures CString(buffer, at) == s
    decreases |s|
  {
    if s != "" {
      assert buffer[at + 0] == s[0];
      forall i | 0 <= i < |s| - 1
        ensures buffer[at + 1 + i] == s[1..][i]
      {
        assert buffer[at + (i + 1)] == s[i + 1];
      }
      CStringIs(buffer, at + 1, s[1..]);
    }
  }

  /** The text of a pointer, given the scanned copy. */
  function Text(temp: seq<char>, p: SegmentPtr): string
    requires p.InTemp? ==> p.at <= |temp|
  {
    if p.DotDot? then ".." else CString(temp, p.at)
  }

  /** `p` points to the string `seg`, all of it and its end lying before `limit`. */
  ghost predicate PointsTo(temp: seq<char>, p: SegmentPtr, seg: Segment, limit: nat) {
    match p
    case DotDot => seg == ".."
    case InTemp(at) =>
      && at + |seg| < limit <= |temp|
      && temp[at + |seg|] == NUL && NUL !in seg
      && forall i :: 0 <= i < |seg| ==> temp[at + i] == seg[i]
  }

  lemma {:induction false} PointsToText(temp: seq<char>, p: SegmentPtr, seg: Segment, limit: nat)
    requires PointsTo(temp, p, seg, limit)
    ensures (p.InTemp? ==> p.at <= |temp|) && Text(temp, p) == seg
  {
    if p.InTemp? {
      CStringIs(temp, p.at, seg);
    }
  }

  /** The first pointers of the stack point to the segments of `st`. */
  ghost predicate StackPointsTo(temp: seq<char>, segments: seq<SegmentPtr>, st: seq<Segment>, limit: nat) {
    |st| <= |segments| && forall k :: 0 <= k < |st| ==> PointsTo(temp, segments[k], st[k], limit)
  }

  // ----- Scanning

  /** The copy still holds the path from `cursor` on, with its terminator. */
  ghost predicate Holds(temp: seq<char>, path: string, cursor: nat) {
    && cursor <= |path| < |temp| && NUL !in path
    && temp[|path|] == NUL
    && forall i :: cursor <= i < |path| ==> temp[i] == path[i]
  }

  lemma {:induction false} AfterSlash(path: string, cursor: nat)
    requires cursor < |path| && path[cursor] == '/'
    ensures Segments(path[cursor..]) == Segments(path[cursor + 1..])
  {
    assert path[cursor..][1..] == path[cursor + 1..];
  }

  lemma {:induction false} SegmentFound(path: string, start: nat, end: nat)
    requires start < end <= |path| && '/' !in path[start..end]
    requires end < |path| ==> path[end] == '/'
    ensures Segments(path[start..]) == [path[start..end]] + Segments(path[end..])
    ensures ProperSegment(path[start..end])
  {
    var seg, rest := path[start..end], path[end..];
    assert path[start..] == seg + rest;
    SegmentThenRest(seg, rest);
  }

  method SkipSlashes(temp: array<char>, from: nat, ghost path: string) returns (cursor: nat)
    requires Holds(temp[..], path, from)
    ensures from <= cursor <= |path| && temp[cursor] != '/'
    ensures Segments(path[cursor..]) == Segments(path[from..])
  {
    cursor := from;
    while temp[cursor] == '/'
      invariant from <= cursor <= |path|
      invariant Segments(path[cursor..]) == Segments(path[from..])
      decreases |path| - cursor
    {
      AfterSlash(path, cursor);
      cursor := cursor + 1;
    }
  }

  method SegmentEnd(temp: array<char>, start: nat, ghost path: string) returns (end: nat)
    requires Holds(temp[..], path, start) && start < |path| && temp[start] != '/'
    ensures start < end <= |path| && '/' !in path[start..end]
    ensures end < |path| ==> path[end] == '/'
    ensures temp[end] == if end < |path| then '/' else NUL
  {
    end := start;
    while temp[end] != NUL && temp[end] != '/'
      invariant start <= end <= |path| && '/' !in path[start..end]
      invariant end == start ==> temp[end] != NUL
      decreases |path| - end
    {
      assert path[start..end + 1] == path[start..end] + [path[end]];
      end := end + 1;
    }
  }

  /** The three cases for a segment: `.`, `..` and a name. */
  method PushSegment(temp: array<char>, start: nat, isAbsolute: bool, segments: array<SegmentPtr>, segCount: nat,
                     ghost st: seq<Segment>, ghost seg: Segment, ghost limit: nat) returns (count: nat)
    requires segments.Length == MAX_SEGMENTS && segCount == |st| <= MAX_SEGMENTS
    requires StackPointsTo(temp[..], segments[..], st, limit) && PointsTo(temp[..], InTemp(start), seg, limit)
    modifies segments
    ensures count == |Apply(isAbsolute, st, seg, MAX_SEGMENTS)| <= MAX_SEGMENTS
    ensures StackPointsTo(temp[..], segments[..], Apply(isAbsolute, st, seg, MAX_SEGMENTS), limit)
  {
    count := segCount;
    ghost var was := segments[..];
    PointsToText(temp[..], InTemp(start), seg, limit);
    if st != [] {
      PointsToText(temp[..], segments[segCount - 1], Last(st), limit);
    }
    var token := CString(temp[..], start);
    if token == "." {
    } else if token == ".." {
      if segCount > 0 && Text(temp[..], segments[segCount - 1]) != ".." {
        count := segCount - 1;
      } else if !isAbsolute {
        if segCount < MAX_SEGMENTS {
          segments[segCount] := DotDot;
          count := segCount + 1;
        }
      }
    } else {
      if segCount < MAX_SEGMENTS {
        segments[segCount] := InTemp(start);
        count := segCount + 1;
      }
    }
  }

  /** Finds the end of the segment at `start` and terminates it there. */
  method CutSegment(temp: array<char>, start: nat, ghost path: string) returns (ghost end: nat, cursor: nat)
    requires Holds(temp[..], path, start) && start < |path| && temp[start] != '/'
    modifies temp
    ensures start < end <= |path| && Holds(temp[..], path, cursor)
    ensures cursor == if end < |path| then end + 1 else end
    ensures forall i :: 0 <= i < start ==> temp[i] == old(temp[i])
    ensures PointsTo(temp[..], InTemp(start), path[start..end], end + 1) && ProperSegment(path[start..end])
    ensures Segments(path[start..]) == [path[start..end]] + Segments(path[cursor..])
  {
    cursor := SegmentEnd(temp, start, path);
    end := cursor;
    SegmentFound(path, start, end);
    if temp[cursor] != NUL {
      temp[cursor] := NUL;
      AfterSlash(path, cursor);
      cursor := cursor + 1;
    }
  }

  /** What the scanner knows at `cursor`: the rest of the path is intact, and the pointers
      on the stack lead to the segments of `st`, which all end before `limit`. */
  ghost predicate Scanned(temp: seq<char>, segments: seq<SegmentPtr>, path: string, cursor: nat,
                          st: seq<Segment>, limit: nat) {
    && Holds(temp, path, cursor)
    && |st| <= MAX_SEGMENTS
    && limit <= |temp| && (limit <= cursor || cursor == |path|)
    && StackPointsTo(temp, segments, st, limit)
  }

  method ScanSegment(temp: array<char>, start: nat, isAbsolute: bool, segments: array<SegmentPtr>, segCount: nat,
                     ghost path: string, ghost st: seq<Segment>, ghost limit: nat)
    returns (cursor: nat, count: nat, ghost seg: Segment, ghost limit': nat)
    requires segments.Length == MAX_SEGMENTS && segCount == |st|
    requires Scanned(temp[..], segments[..], path, start, st, limit)
    requires start < |path| && temp[start] != '/'
    modifies temp, segments
    ensures start < cursor <= |path| && Segments(path[start..]) == [seg] + Segments(path[cursor..])
    ensures count == |Apply(isAbsolute, st, seg, MAX_SEGMENTS)|
    ensures Scanned(temp[..], segments[..], path, cursor, Apply(isAbsolute, st, seg, MAX_SEGMENTS), limit')
  {
    ghost var was := temp[..];
    ghost var end;
    end, cursor := CutSegment(temp, start, path);
    seg, limit' := path[start..end], end + 1;
    count := PushSegment(temp, start, isAbsolute, segments, segCount, st, seg, limit');
  }

  /** The scanner computes the fold over the segments. */
  method Scan(temp: array<char>, isAbsolute: bool, segments: array<SegmentPtr>, ghost path: string) returns (segCount: nat)
    requires Holds(temp[..], path, 0) && segments.Length == MAX_SEGMENTS
    requires isAbsolute == IsAbsolute(path)
    modifies temp, segments
    ensures segCount == |Stack(path)| <= MAX_SEGMENTS
    ensures StackPointsTo(temp[..], segments[..], Stack(path), temp.Length)
  {
    var cursor := 0;
    segCount := 0;
    ghost var st: seq<Segment>, limit := [], 0;
    assert path[0..] == path;
    while temp[cursor] != NUL
      invariant Scanned(temp[..], segments[..], path, cursor, st, limit) && segCount == |st|
      invariant Fold(isAbsolute, st, Segments(path[cursor..]), MAX_SEGMENTS) == Stack(path)
      decreases |path| - cursor
    {
      cursor := SkipSlashes(temp, cursor, path);
      if temp[cursor] == NUL {
        break;
      }
      ghost var seg;
      cursor, segCount, seg, limit := ScanSegment(temp, cursor, isAbsolute, segments, segCount, path, st, limit);
      st := Apply(isAbsolute, st, seg, MAX_SEGMENTS);
    }
    assert path[|path|..] == "";
  }

  // ----- Printing

  lemma {:induction false} JoinNext(segs: seq<Segment>, seg: Segment)
    ensures Join(segs + [seg]) == Join(segs) + (if segs == [] then "" else "/") + seg
  {
    if |segs| > 0 {
      assert (segs + [seg])[1..] == segs[1..] + [seg];
      JoinNext(segs[1..], seg);
    }
  }

  lemma {:induction false} BodyNext(absolute: bool, st: seq<Segment>, i: nat)
    requires i < |st|
    ensures Body(absolute, st[..i + 1]) == Body(absolute, st[..i]) + (if i == 0 then "" else "/") + st[i]
  {
    assert st[..i + 1] == st[..i] + [st[i]];
    JoinNext(st[..i], st[i]);
  }

  lemma {:induction false} BodyGrows(absolute: bool, st: seq<Segment>, i: nat)
    requires i <= |st|
    ensures |Body(absolute, st[..i])| <= |Body(absolute, st)|
    decreases |st| - i
  {
    if i == |st| {
      assert st[..i] == st;
    } else {
      BodyNext(absolute, st, i);
      BodyGrows(absolute, st, i + 1);
    }
  }

  /** The text printed so far ends in a slash only if it is the leading one. */
  lemma {:induction false} BodyEnd(absolute: bool, st: seq<Segment>, i: nat)
    requires Proper(st) && i <= |st|
    ensures var b := Body(absolute, st[..i]); (b != "" && b[|b| - 1] != '/') <==> i > 0
  {
    if i > 0 {
      BodyNext(absolute, st, i - 1);
      assert ProperSegment(st[i - 1]);
    }
  }

  ghost predicate Printed(out: seq<char>, outPos: nat, text: string) {
    outPos < |out| && out[..outPos] == text && out[outPos] == NUL
  }

  method PrintString(out: array<char>, outPos: nat, text: string) returns (newPos: nat)
    requires outPos + |text| < out.Length && outPos <= out.Length
    modifies out
    ensures newPos == outPos + |text|
    ensures Printed(out[..], newPos, old(out[..outPos]) + text)
  {
    forall i | 0 <= i < |text| {
      out[outPos + i] := text[i];
    }
    newPos := outPos + |text|;
    out[newPos] := NUL;
  }

  /** One more segment, after a slash unless the text ends in one or is empty. */
  method PrintSegment(out: array<char>, outPos: nat, text: string, bufferSize: nat,
                      ghost isAbsolute: bool, ghost st: seq<Segment>, ghost i: nat) returns (ok: bool, newPos: nat)
    requires outPos < bufferSize <= out.Length && i < |st| && Proper(st) && text == st[i]
    requires Printed(out[..], outPos, Body(isAbsolute, st[..i]))
    modifies out
    ensures ok <==> |Body(isAbsolute, st[..i + 1])| < bufferSize
    ensures ok ==> newPos < bufferSize && Printed(out[..], newPos, Body(isAbsolute, st[..i + 1]))
  {
    BodyNext(isAbsolute, st, i);
    BodyEnd(isAbsolute, st, i);
    var needsSlash := outPos > 0 && out[outPos - 1] != '/';
    if outPos + (if needsSlash then 1 else 0) + |text| >= bufferSize {
      return false, outPos;
    }
    newPos := PrintString(out, outPos, (if needsSlash then "/" else "") + text);
    ok := true;
  }

  /** The slash of an absolute path, and the segments. */
  method PrintBody(temp: array<char>, isAbsolute: bool, segments: array<SegmentPtr>, segCount: nat,
                   out: array<char>, bufferSize: nat, ghost st: seq<Segment>) returns (ok: bool, outPos: nat)
    requires 0 < bufferSize <= out.Length && out != temp
    requires segCount == |st| <= segments.Length && Proper(st)
    requires StackPointsTo(temp[..], segments[..], st, temp.Length)
    modifies out
    ensures ok <==> |Body(isAbsolute, st)| < bufferSize
    ensures ok ==> Printed(out[..], outPos, Body(isAbsolute, st))
  {
    BodyGrows(isAbsolute, st, 0);
    out[0] := NUL;
    outPos := 0;
    if isAbsolute {
      if outPos + 1 >= bufferSize {
        return false, outPos;
      }
      outPos := PrintString(out, 0, "/");
    }
    for i := 0 to segCount
      invariant outPos < bufferSize && Printed(out[..], outPos, Body(isAbsolute, st[..i]))
    {
      PointsToText(temp[..], segments[i], st[i], temp.Length);
      BodyGrows(isAbsolute, st, i + 1);
      ok, outPos := PrintSegment(out, outPos, Text(temp[..], segments[i]), bufferSize, isAbsolute, st, i);
      if !ok {
        return;
      }
    }
    assert st[..segCount] == st;
    ok := true;
  }

  method Print(temp: array<char>, isAbsolute: bool, segments: array<SegmentPtr>, segCount: nat,
               out: array<char>, bufferSize: nat, ghost st: seq<Segment>) returns (ok: bool)
    requires 0 < bufferSize <= out.Length && out != temp
    requires segCount == |st| <= segments.Length && Proper(st)
    requires StackPointsTo(temp[..], segments[..], st, temp.Length)
    modifies out
    ensures ok <==> |Render(isAbsolute, st)| < bufferSize
    ensures ok ==> Printed(out[..], |Render(isAbsolute, st)|, Render(isAbsolute, st))
  {
    var outPos;
    ok, outPos := PrintBody(temp, isAbsolute, segments, segCount, out, bufferSize, st);
    if ok && outPos == 0 {
      if bufferSize < 2 {
        return false;
      }
      outPos := PrintString(out, 0, ".");
    }
  }

  // ----- The whole routine

  /** It succeeds exactly when the path fits the copy and its normal form the buffer, and
      then the buffer holds the normal form as a C string. */
  method Normalize(path: string, out: array<char>, bufferSize: nat) returns (ok: bool)
    requires NUL !in path && bufferSize <= out.Length
    modifies out
    ensures ok <==> |path| < 1024 && |Normalized(path)| < bufferSize
    ensures ok ==> Printed(out[..], |Normalized(path)|, Normalized(path))
  {
    if bufferSize == 0 || |path| >= TEMP_SIZE {
      return false;
    }
    var temp := new char[TEMP_SIZE];
    forall i | 0 <= i < |path| {
      temp[i] := path[i];
    }
    temp[|path|] := NUL;
    var isAbsolute := temp[0] == '/';
    var segments := new SegmentPtr[MAX_SEGMENTS];
    SegmentsProper(path);
    FoldCanonical(IsAbsolute(path), [], Segments(path), MAX_SEGMENTS);
    var segCount := Scan(temp, isAbsolute, segments, path);
    ok := Print(temp, isAbsolute, segments, segCount, out, bufferSize, Stack(path));
  }
}
