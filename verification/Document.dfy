/**
 Building the text indexed for a message and cutting it into bounded segments.
 Positions and lengths count characters (Unicode scalar values), as the source does.
 */
module Document {
  import opened Wrappers

  const SEGMENT_TARGET_CHARS := 2048
  const SEGMENT_MAX_CHARS := 16384
  const MAX_SEGMENTS_PER_MESSAGE := 8
  const SNAP_WINDOW := 256

  /** The Unicode White_Space property. */
  predicate IsWhitespace(c: char) {
    || '\U{0009}' <= c <= '\U{000D}' || c == ' ' || c == '\U{0085}' || c == '\U{00A0}' || c == '\U{1680}'
    || '\U{2000}' <= c <= '\U{200A}' || c == '\U{2028}' || c == '\U{2029}' || c == '\U{202F}'
    || c == '\U{205F}' || c == '\U{3000}'
  }

  // ---------------------------------------------------------------- building

  function TrimStart(s: string): string {
    if s != [] && IsWhitespace(s[0]) then TrimStart(s[1..]) else s
  }

  function TrimEnd(s: string): string {
    if s != [] && IsWhitespace(s[|s| - 1]) then TrimEnd(s[..|s| - 1]) else s
  }

  function Trim(s: string): string { TrimEnd(TrimStart(s)) }

  function FromDisplay(addr: string, name: Option<string>): string {
    if name.Some? && Trim(name.value) != "" then Trim(name.value) + " <" + addr + ">" else addr
  }

  /** Subject (unless blank), sender, body, separated by blank lines. */
  function Build(subject: Option<string>, addr: string, name: Option<string>, body: string): string {
    (if subject.Some? && Trim(subject.value) != "" then Trim(subject.value) + "\n\n" else "")
    + FromDisplay(addr, name) + "\n\n" + body
  }

  /** Different bodies under the same headers give different documents. */
  lemma BuildKeepsBody(subject: Option<string>, addr: string, name: Option<string>, a: string, b: string)
    requires Build(subject, addr, name, a) == Build(subject, addr, name, b)
    ensures a == b
  {
    var head := Build(subject, addr, name, "");
    assert Build(subject, addr, name, a)[|head|..] == a && Build(subject, addr, name, b)[|head|..] == b;
  }

  /** The white space of the Unicode character database, code point by code point. */
  lemma WhitespaceCodePoints(c: char)
    ensures IsWhitespace(c) <==>
            c as int in {0x9, 0xA, 0xB, 0xC, 0xD, 0x20, 0x85, 0xA0, 0x1680, 0x2000, 0x2001, 0x2002, 0x2003, 0x2004, 0x2005,
                         0x2006, 0x2007, 0x2008, 0x2009, 0x200A, 0x2028, 0x2029, 0x202F, 0x205F, 0x3000}
  {
    var n := c as int;
    assert c == n as char;
  }

  /** s[i..j] is what is left of s between its outer white space; i == j when there is nothing else. */
  predicate Inner(s: string, i: nat, j: nat) {
    && i <= j <= |s|
    && (forall k :: 0 <= k < i ==> IsWhitespace(s[k])) && (forall k :: j <= k < |s| ==> IsWhitespace(s[k]))
    && (i < j ==> !IsWhitespace(s[i]) && !IsWhitespace(s[j - 1]))
  }

  /** Every string has an inner part. */
  lemma {:induction false} InnerExists(s: string) returns (i: nat, j: nat)
    ensures Inner(s, i, j)
    decreases |s|
  {
    if s == [] {
      return 0, 0;
    } else if IsWhitespace(s[0]) {
      i, j := InnerExists(s[1..]);
      i, j := i + 1, j + 1;
    } else if IsWhitespace(s[|s| - 1]) {
      i, j := InnerExists(s[..|s| - 1]);
    } else {
      return 0, |s|;
    }
  }

  lemma {:induction false} TrimStartDrops(s: string, i: nat)
    requires i <= |s| && (forall k :: 0 <= k < i ==> IsWhitespace(s[k])) && (i < |s| ==> !IsWhitespace(s[i]))
    ensures TrimStart(s) == s[i..]
    decreases i
  {
    if i > 0 { TrimStartDrops(s[1..], i - 1); }
  }

  lemma {:induction false} TrimEndDrops(s: string, j: nat)
    requires j <= |s| && (forall k :: j <= k < |s| ==> IsWhitespace(s[k])) && (j > 0 ==> !IsWhitespace(s[j - 1]))
    ensures TrimEnd(s) == s[..j]
    decreases |s| - j
  {
    if j < |s| {
      TrimEndDrops(s[..|s| - 1], j);
      assert s[..|s| - 1][..j] == s[..j];
    } else {
      assert s[..j] == s;
    }
  }

  lemma TrimIsInner(s: string, i: nat, j: nat)
    requires Inner(s, i, j)
    ensures Trim(s) == s[i..j]
  {
    if i == j {
      TrimStartDrops(s, |s|);
    } else {
      TrimStartDrops(s, i);
      TrimEndDrops(s[i..], j - i);
      assert s[i..][..j - i] == s[i..j];
    }
  }

  /**
   What the indexed text is: the subject without its outer white space and a blank line, unless
   there is no more to it; the sender's address, behind the equally trimmed name if there is one;
   a blank line; the body untouched.
   */
  lemma DocumentReads(subject: Option<string>, si: nat, sj: nat, addr: string, name: Option<string>, ni: nat, nj: nat, body: string)
    requires subject.Some? ==> Inner(subject.value, si, sj)
    requires name.Some? ==> Inner(name.value, ni, nj)
    ensures Build(subject, addr, name, body) ==
            (if subject.Some? && si < sj then subject.value[si..sj] + "\n\n" else "")
            + (if name.Some? && ni < nj then name.value[ni..nj] + " <" + addr + ">" else addr)
            + "\n\n" + body
  {
    if subject.Some? { TrimIsInner(subject.value, si, sj); }
    if name.Some? { TrimIsInner(name.value, ni, nj); }
  }

  // ---------------------------------------------------------------- where to cut

  function Distance(a: nat, b: nat): nat { if a >= b then a - b else b - a }

  /** `p` is preferred to `q`: nearer the target, or as near and earlier. */
  predicate Nearer(p: nat, q: nat, target: nat) {
    Distance(p, target) < Distance(q, target) || (Distance(p, target) == Distance(q, target) && p <= q)
  }

  function WindowStart(start: nat, target: nat): nat { Max(Max(target - SNAP_WINDOW, 0), start + 1) }

  function WindowEnd(target: nat, capped: nat): nat { Min(target + SNAP_WINDOW, capped) }

  /** `p` splits just behind a blank line inside the window. */
  predicate ParagraphCut(chars: string, start: nat, target: nat, capped: nat, p: nat) {
    && WindowStart(start, target) + 2 <= p <= WindowEnd(target, capped) <= |chars|
    && chars[p - 2] == '\n' && chars[p - 1] == '\n'
  }

  predicate NewlineCut(chars: string, start: nat, target: nat, capped: nat, p: nat) {
    && WindowStart(start, target) + 1 <= p <= WindowEnd(target, capped) <= |chars|
    && chars[p - 1] == '\n'
  }

  predicate WordCut(chars: string, start: nat, target: nat, p: nat) {
    && WindowStart(start, target) + 1 <= p <= target <= |chars|
    && IsWhitespace(chars[p - 1])
  }

  /** The nearest paragraph break, else the nearest newline, else the last space before the target, else the target. */
  ghost predicate BestCut(chars: string, start: nat, target: nat, capped: nat, p: nat)
    requires capped <= |chars|
  {
    if exists q: nat :: ParagraphCut(chars, start, target, capped, q) then
      && ParagraphCut(chars, start, target, capped, p)
      && forall q: nat :: ParagraphCut(chars, start, target, capped, q) ==> Nearer(p, q, target)
    else if exists q: nat :: NewlineCut(chars, start, target, capped, q) then
      && NewlineCut(chars, start, target, capped, p)
      && forall q: nat :: NewlineCut(chars, start, target, capped, q) ==> Nearer(p, q, target)
    else if exists q: nat :: WordCut(chars, start, target, q) then
      WordCut(chars, start, target, p) && forall q: nat :: WordCut(chars, start, target, q) ==> q <= p
    else p == target
  }

  method SnapBoundary(chars: string, start: nat, target: nat, capped: nat) returns (p: nat)
    requires start < target < capped <= |chars|
    ensures BestCut(chars, start, target, capped, p)
  {
    var windowStart := WindowStart(start, target);
    var windowEnd := WindowEnd(target, capped);
    if windowStart >= windowEnd {
      return target;
    }
    var para := NearestParagraph(chars, start, target, capped);
    if para.Some? { return para.value; }
    var newline := NearestNewline(chars, start, target, capped);
    if newline.Some? { return newline.value; }
    var i := target;
    while i > windowStart
      invariant windowStart <= i <= target
      invariant forall q: nat :: WordCut(chars, start, target, q) ==> q <= i
    {
      i := i - 1;
      if IsWhitespace(chars[i]) {
        assert WordCut(chars, start, target, i + 1);
        return i + 1;
      }
    }
    p := target;
  }

  method NearestParagraph(chars: string, start: nat, target: nat, capped: nat) returns (best: Option<nat>)
    requires start < target < capped <= |chars| && WindowStart(start, target) < WindowEnd(target, capped)
    ensures best.None? <==> !exists q: nat :: ParagraphCut(chars, start, target, capped, q)
    ensures best.Some? ==> ParagraphCut(chars, start, target, capped, best.value)
    ensures best.Some? ==> forall q: nat :: ParagraphCut(chars, start, target, capped, q) ==> Nearer(best.value, q, target)
  {
    best := None;
    var bestDist := 0;
    for i := WindowStart(start, target) to WindowEnd(target, capped) - 1
      invariant best.Some? ==> ParagraphCut(chars, start, target, capped, best.value)
                               && bestDist == Distance(best.value, target) && best.value <= i + 1
      invariant forall q: nat :: ParagraphCut(chars, start, target, capped, q) && q < i + 2 ==>
          && best.Some?
          && (bestDist < Distance(q, target) || (bestDist == Distance(q, target) && best.value <= q))
    {
      if chars[i] == '\n' && chars[i + 1] == '\n' {
        assert ParagraphCut(chars, start, target, capped, i + 2);
        var dist := Distance(i + 2, target);
        if best.None? || dist < bestDist {
          bestDist := dist;
          best := Some(i + 2);
        }
      }
    }
  }

  method NearestNewline(chars: string, start: nat, target: nat, capped: nat) returns (best: Option<nat>)
    requires start < target < capped <= |chars| && WindowStart(start, target) < WindowEnd(target, capped)
    ensures best.None? <==> !exists q: nat :: NewlineCut(chars, start, target, capped, q)
    ensures best.Some? ==> NewlineCut(chars, start, target, capped, best.value)
    ensures best.Some? ==> forall q: nat :: NewlineCut(chars, start, target, capped, q) ==> Nearer(best.value, q, target)
  {
    best := None;
    var bestDist := 0;
    for i := WindowStart(start, target) to WindowEnd(target, capped)
      invariant best.Some? ==> NewlineCut(chars, start, target, capped, best.value)
                               && bestDist == Distance(best.value, target) && best.value <= i
      invariant forall q: nat :: NewlineCut(chars, start, target, capped, q) && q < i + 1 ==>
          && best.Some?
          && (bestDist < Distance(q, target) || (bestDist == Distance(q, target) && best.value <= q))
    {
      if chars[i] == '\n' {
        assert NewlineCut(chars, start, target, capped, i + 1);
        var dist := Distance(i + 1, target);
        if best.None? || dist < bestDist {
          bestDist := dist;
          best := Some(i + 1);
        }
      }
    }
  }

  /** A cut at a full-sized target is between 1793 and 2304 characters behind the previous one. */
  lemma CutDistance(chars: string, start: nat, capped: nat, p: nat)
    requires start + SEGMENT_TARGET_CHARS < capped <= |chars|
    requires BestCut(chars, start, start + SEGMENT_TARGET_CHARS, capped, p)
    ensures start + 1793 <= p <= start + 2304 && p <= capped
  {
  }

  // ---------------------------------------------------------------- splitting

  /** Segments joined back together. */
  function Joined(segments: seq<string>): string {
    if segments == [] then "" else Joined(segments[..|segments| - 1]) + segments[|segments| - 1]
  }

  /** From a cut at `a`, the next one is at `b`. */
  ghost predicate NextCut(document: string, capped: nat, a: nat, b: nat)
    requires capped <= |document|
  {
    && a < b <= capped
    && if a + SEGMENT_TARGET_CHARS < capped
       then BestCut(document, a, a + SEGMENT_TARGET_CHARS, capped, b)
       else b == capped
  }

  /** Each segment is the piece of the document between the end of the previous ones and the next cut. */
  ghost predicate CutUpFrom(document: string, capped: nat, segments: seq<string>)
    requires capped <= |document|
  {
    segments == []
    || (var n := |segments| - 1;
        var start, end := |Joined(segments[..n])|, |Joined(segments)|;
        && CutUpFrom(document, capped, segments[..n])
        && start < capped && NextCut(document, capped, start, end)
        && segments[n] == document[start..end])
  }

  lemma JoinedAppended(segments: seq<string>, last: string)
    ensures (segments + [last])[..|segments|] == segments
    ensures Joined(segments + [last]) == Joined(segments) + last
  {
    assert (segments + [last])[..|segments|] == segments;
  }

  lemma SegmentAppended(document: string, capped: nat, segments: seq<string>, end: nat)
    requires capped <= |document| && CutUpFrom(document, capped, segments)
    requires |Joined(segments)| < capped && NextCut(document, capped, |Joined(segments)|, end)
    ensures var more := segments + [document[|Joined(segments)|..end]];
            CutUpFrom(document, capped, more) && |Joined(more)| == end
  {
    JoinedAppended(segments, document[|Joined(segments)|..end]);
  }

  /** The lengths alone: each segment is bounded, and only the last may be short. */
  predicate Spaced(capped: nat, segments: seq<string>) {
    segments == []
    || (var n := |segments| - 1;
        var start, end := |Joined(segments[..n])|, |Joined(segments)|;
        && Spaced(capped, segments[..n])
        && start < end <= capped && end - start <= SEGMENT_TARGET_CHARS + SNAP_WINDOW
        && (end == capped || (end - start >= 1793 && start + SEGMENT_TARGET_CHARS < capped)))
  }

  lemma LastCutSpaced(document: string, capped: nat, start: nat, end: nat)
    requires capped <= |document| && NextCut(document, capped, start, end)
    ensures start < end <= capped && end - start <= SEGMENT_TARGET_CHARS + SNAP_WINDOW
    ensures end == capped || (end - start >= 1793 && start + SEGMENT_TARGET_CHARS < capped)
  {
    if start + SEGMENT_TARGET_CHARS < capped { CutDistance(document, start, capped, end); }
  }

  lemma PieceFollows(document: string, start: nat, end: nat)
    requires start <= end <= |document|
    ensures document[..start] + document[start..end] == document[..end]
  {
  }

  lemma {:induction false} CutUpSpaced(document: string, capped: nat, segments: seq<string>)
    requires capped <= |document| && CutUpFrom(document, capped, segments)
    ensures Spaced(capped, segments) && Joined(segments) <= document
  {
    if segments != [] {
      var n := |segments| - 1;
      var start, end := |Joined(segments[..n])|, |Joined(segments)|;
      CutUpSpaced(document, capped, segments[..n]);
      LastCutSpaced(document, capped, start, end);
      PieceFollows(document, start, end);
    }
  }

  /** Every non-final cut lies at least 1793 characters behind the last one. */
  lemma {:induction false} CutsAdvance(capped: nat, segments: seq<string>)
    requires Spaced(capped, segments)
    ensures |Joined(segments)| <= capped
    ensures |Joined(segments)| == capped || |Joined(segments)| >= 1793 * |segments|
  {
    if segments != [] { CutsAdvance(capped, segments[..|segments| - 1]); }
  }

  lemma {:induction false} SegmentBounds(capped: nat, segments: seq<string>, i: nat)
    requires Spaced(capped, segments) && i < |segments|
    ensures 0 < |segments[i]| <= SEGMENT_TARGET_CHARS + SNAP_WINDOW
    ensures i < |segments| - 1 ==> |segments[i]| >= 1793
    decreases |segments|
  {
    var n := |segments| - 1;
    if i < n {
      SegmentBounds(capped, segments[..n], i);
    }
  }

  /** The document determines each cut. */
  lemma CutUnique(document: string, capped: nat, a: nat, p: nat, q: nat)
    requires capped <= |document| && NextCut(document, capped, a, p) && NextCut(document, capped, a, q)
    ensures p == q
  {
  }

  /** Eight segments reach the end of any document of up to 14599 characters, and 14344 of any longer one. */
  lemma EightSegmentsReach(capped: nat, segments: seq<string>)
    requires Spaced(capped, segments) && |segments| == 8
    ensures |Joined(segments)| == capped || (capped > 14599 && |Joined(segments)| >= 14344)
  {
    CutsAdvance(capped, segments);
    CutsAdvance(capped, segments[..7]);
  }

  // ---------------------------------------------------------------- the split of a document

  function Capped(document: string): nat { Min(|document|, SEGMENT_MAX_CHARS) }

  /** The pieces between successive best cuts, until the cap or the eighth; the empty document is one empty piece. */
  ghost predicate IsSplit(document: string, segments: seq<string>) {
    if document == "" then segments == [""]
    else
      && CutUpFrom(document, Capped(document), segments)
      && (|Joined(segments)| == Capped(document) || |segments| == MAX_SEGMENTS_PER_MESSAGE)
      && 1 <= |segments| <= MAX_SEGMENTS_PER_MESSAGE
  }

  lemma {:induction false} CutUpPrefix(document: string, capped: nat, segments: seq<string>, n: nat)
    requires capped <= |document| && CutUpFrom(document, capped, segments) && n <= |segments|
    ensures CutUpFrom(document, capped, segments[..n])
    decreases |segments|
  {
    if n < |segments| {
      var shorter := segments[..|segments| - 1];
      CutUpPrefix(document, capped, shorter, n);
      assert shorter[..n] == segments[..n];
    } else {
      assert segments[..n] == segments;
    }
  }

  lemma LastPiecesAgree(document: string, capped: nat, a: seq<string>, b: seq<string>)
    requires capped <= |document| && CutUpFrom(document, capped, a) && CutUpFrom(document, capped, b)
    requires |a| == |b| > 0 && a[..|a| - 1] == b[..|b| - 1]
    ensures a[|a| - 1] == b[|b| - 1]
  {
    CutUnique(document, capped, |Joined(a[..|a| - 1])|, |Joined(a)|, |Joined(b)|);
  }

  /** Two cut-ups of a document agree as far as both go. */
  lemma {:induction false} CutUpsAgree(document: string, capped: nat, a: seq<string>, b: seq<string>)
    requires capped <= |document| && CutUpFrom(document, capped, a) && CutUpFrom(document, capped, b) && |a| == |b|
    ensures a == b
    decreases |a|
  {
    if a != [] {
      CutUpsAgree(document, capped, a[..|a| - 1], b[..|b| - 1]);
      LastPiecesAgree(document, capped, a, b);
      LastOf(a);
      LastOf(b);
    }
  }

  lemma LastOf(segments: seq<string>)
    requires segments != []
    ensures segments == segments[..|segments| - 1] + [segments[|segments| - 1]]
  {
  }

  lemma PrefixOfPrefix(segments: seq<string>, n: nat)
    requires n < |segments|
    ensures segments[..n + 1][..n] == segments[..n]
  {
  }

  /** A cut-up that can be continued has not reached the cap. */
  lemma LongerContinues(document: string, capped: nat, a: seq<string>, b: seq<string>)
    requires capped <= |document| && CutUpFrom(document, capped, a) && CutUpFrom(document, capped, b) && |a| < |b|
    ensures |Joined(a)| < capped
  {
    var n := |a|;
    CutUpPrefix(document, capped, b, n);
    CutUpsAgree(document, capped, a, b[..n]);
    CutUpPrefix(document, capped, b, n + 1);
    PrefixOfPrefix(b, n);
  }

  /** The document determines its split. */
  lemma SplitUnique(document: string, a: seq<string>, b: seq<string>)
    requires IsSplit(document, a) && IsSplit(document, b)
    ensures a == b
  {
    if document != "" {
      if |a| < |b| { LongerContinues(document, Capped(document), a, b); }
      if |b| < |a| { LongerContinues(document, Capped(document), b, a); }
      CutUpsAgree(document, Capped(document), a, b);
    }
  }

  lemma {:induction false} NearestExists(cut: nat -> bool, target: nat, q: nat) returns (p: nat)
    requires cut(q)
    ensures cut(p) && forall o: nat :: cut(o) ==> Nearer(p, o, target)
    decreases Distance(q, target), q
  {
    p := q;
    if better: nat :| cut(better) && !Nearer(q, better, target) {
      p := NearestExists(cut, target, better);
    }
  }

  lemma {:induction false} LastExists(cut: nat -> bool, bound: nat, q: nat) returns (p: nat)
    requires cut(q) && forall o: nat :: cut(o) ==> o <= bound
    ensures cut(p) && forall o: nat :: cut(o) ==> o <= p
    decreases bound - q
  {
    p := q;
    if later: nat :| cut(later) && later > q {
      p := LastExists(cut, bound, later);
    }
  }

  /** There is always a best cut. */
  lemma BestCutExists(chars: string, start: nat, target: nat, capped: nat) returns (p: nat)
    requires capped <= |chars|
    ensures BestCut(chars, start, target, capped, p)
  {
    if q: nat :| ParagraphCut(chars, start, target, capped, q) {
      p := NearestExists((c: nat) => ParagraphCut(chars, start, target, capped, c), target, q);
    } else if q: nat :| NewlineCut(chars, start, target, capped, q) {
      p := NearestExists((c: nat) => NewlineCut(chars, start, target, capped, c), target, q);
    } else if q: nat :| WordCut(chars, start, target, q) {
      var word := (c: nat) => WordCut(chars, start, target, c);
      p := LastExists(word, target, q);
      assert forall c: nat :: WordCut(chars, start, target, c) ==> word(c);
    } else {
      p := target;
    }
  }

  lemma NextCutExists(document: string, capped: nat, a: nat) returns (b: nat)
    requires a < capped <= |document|
    ensures NextCut(document, capped, a, b)
  {
    if a + SEGMENT_TARGET_CHARS >= capped { return capped; }
    b := BestCutExists(document, a, a + SEGMENT_TARGET_CHARS, capped);
    CutDistance(document, a, capped, b);
  }

  lemma {:induction false} SplitCompletes(document: string, segments: seq<string>) returns (split: seq<string>)
    requires document != "" && CutUpFrom(document, Capped(document), segments)
    requires |segments| <= MAX_SEGMENTS_PER_MESSAGE
    ensures IsSplit(document, split)
    decreases MAX_SEGMENTS_PER_MESSAGE - |segments|
  {
    var capped := Capped(document);
    CutUpSpaced(document, capped, segments);
    CutsAdvance(capped, segments);
    if |segments| == MAX_SEGMENTS_PER_MESSAGE || |Joined(segments)| == capped {
      return segments;
    }
    var end := NextCutExists(document, capped, |Joined(segments)|);
    SegmentAppended(document, capped, segments, end);
    split := SplitCompletes(document, segments + [document[|Joined(segments)|..end]]);
  }

  lemma SplitExists(document: string)
    ensures exists segments :: IsSplit(document, segments)
  {
    if document == "" {
      assert IsSplit("", [""]);
    } else {
      var split := SplitCompletes(document, []);
    }
  }

  /** The one split of a document. */
  ghost function Segments(document: string): (segments: seq<string>)
    ensures IsSplit(document, segments) && 1 <= |segments| <= MAX_SEGMENTS_PER_MESSAGE
  {
    SplitExists(document);
    var segments :| IsSplit(document, segments);
    segments
  }

  /**
   A split is a prefix of the document, its pieces within bounds, none empty unless the document is,
   reaching as far as guaranteed.
   */
  lemma SplitBounds(document: string, segments: seq<string>)
    requires IsSplit(document, segments)
    ensures Joined(segments) <= document
    ensures 1 <= |segments| <= 8 && (|Joined(segments)| == Min(|document|, 16384) || |segments| == 8)
    ensures (if |document| <= 14599 then |document| else 14344) <= |Joined(segments)| <= 16384
    ensures forall i :: 0 <= i < |segments| ==> |segments[i]| <= 2304
    ensures forall i :: 0 <= i < |segments| ==> (segments[i] == "" <==> document == "")
    ensures forall i :: 0 <= i < |segments| - 1 ==> |segments[i]| >= 1793
  {
    if document != "" {
      var capped := Capped(document);
      CutUpSpaced(document, capped, segments);
      CutsAdvance(capped, segments);
      forall i | 0 <= i < |segments|
        ensures 0 < |segments[i]| <= SEGMENT_TARGET_CHARS + SNAP_WINDOW && (i < |segments| - 1 ==> |segments[i]| >= 1793)
      {
        SegmentBounds(capped, segments, i);
      }
      if |segments| == 8 { EightSegmentsReach(capped, segments); }
    }
  }

  /** The length of the first i segments: where segment i starts. */
  ghost function CutAt(document: string, i: nat): nat
    requires i <= |Segments(document)|
  {
    |Joined(Segments(document)[..i])|
  }

  /** Segment i is the document between two cuts; the last cut is the end or the cap, once within 2048 characters of it. */
  lemma SegmentIs(document: string, i: nat)
    requires document != "" && i < |Segments(document)|
    ensures var a, b := CutAt(document, i), CutAt(document, i + 1);
            && a < b <= Min(|document|, 16384) && Segments(document)[i] == document[a..b]
            && (a + 2048 >= Min(|document|, 16384) ==> b == Min(|document|, 16384))
            && (a + 2048 < Min(|document|, 16384) ==> NextCut(document, Min(|document|, 16384), a, b))
  {
    var segments := Segments(document);
    CutUpPrefix(document, Capped(document), segments, i + 1);
    PrefixOfPrefix(segments, i);
    assert segments[..i + 1][i] == segments[i];
  }

  predicate BlankLineAt(document: string, lo: nat, hi: nat, p: nat) {
    lo + 2 <= p <= hi <= |document| && document[p - 2] == '\n' && document[p - 1] == '\n'
  }

  predicate NewlineAt(document: string, lo: nat, hi: nat, p: nat) {
    lo + 1 <= p <= hi <= |document| && document[p - 1] == '\n'
  }

  predicate SpaceAt(document: string, lo: nat, hi: nat, p: nat) {
    lo + 1 <= p <= hi <= |document| && IsWhitespace(document[p - 1])
  }

  function Abs(x: int): nat { if x < 0 then -x else x }

  /**
   Where an inner cut falls, 2048 characters on: at the blank line nearest to that within 256
   characters, else at the nearest newline there, the earlier of two equally near; else behind the
   last white space of the 256 characters before it; else exactly there.
   */
  lemma InnerCutFalls(document: string, capped: nat, a: nat, b: nat)
    requires a + 2048 < capped <= |document| && NextCut(document, capped, a, b)
    ensures var lo, hi, t := a + 1792, Min(a + 2304, capped), a + 2048;
            && (forall q: nat :: BlankLineAt(document, lo, hi, q) ==>
                  BlankLineAt(document, lo, hi, b) && Abs(b - t) <= Abs(q - t) && (Abs(b - t) == Abs(q - t) ==> b <= q))
            && ((forall q: nat :: !BlankLineAt(document, lo, hi, q)) ==>
                  && (forall q: nat :: NewlineAt(document, lo, hi, q) ==>
                        NewlineAt(document, lo, hi, b) && Abs(b - t) <= Abs(q - t) && (Abs(b - t) == Abs(q - t) ==> b <= q))
                  && ((forall q: nat :: !NewlineAt(document, lo, hi, q)) ==>
                        && (forall q: nat :: SpaceAt(document, lo, t, q) ==> SpaceAt(document, lo, t, b) && q <= b)
                        && ((forall q: nat :: !SpaceAt(document, lo, t, q)) ==> b == t)))
  {
    var lo, hi, t := a + 1792, Min(a + 2304, capped), a + 2048;
    assert forall q: nat :: BlankLineAt(document, lo, hi, q) <==> ParagraphCut(document, a, t, capped, q);
    assert forall q: nat :: NewlineAt(document, lo, hi, q) <==> NewlineCut(document, a, t, capped, q);
    assert forall q: nat :: SpaceAt(document, lo, t, q) <==> WordCut(document, a, t, q);
  }

  lemma JoinedSingle(segments: seq<string>)
    ensures |segments| == 1 ==> Joined(segments) == segments[0]
  {
    if |segments| == 1 { assert Joined(segments[..0]) == ""; }
  }

  /** A document longer than the longest segment has several. */
  lemma LongDocumentsSplit(document: string)
    requires |document| > 2304
    ensures |Segments(document)| >= 2
  {
    var segments := Segments(document);
    SplitBounds(document, segments);
    JoinedSingle(segments);
  }

  /** `split_for_index` computes the split. */
  method SplitForIndex(document: string) returns (segments: seq<string>)
    ensures IsSplit(document, segments) && segments == Segments(document)
    ensures Joined(segments) <= document
    ensures 1 <= |segments| <= 8 && (|Joined(segments)| == Min(|document|, 16384) || |segments| == 8)
    ensures (if |document| <= 14599 then |document| else 14344) <= |Joined(segments)| <= 16384
    ensures forall i :: 0 <= i < |segments| ==> |segments[i]| <= 2304
    ensures forall i :: 0 <= i < |segments| ==> (segments[i] == "" <==> document == "")
    ensures forall i :: 0 <= i < |segments| - 1 ==> |segments[i]| >= 1793
  {
    var total := |document|;
    if total == 0 {
      segments := [""];
    } else if total <= SEGMENT_TARGET_CHARS {
      segments := [document];
      SegmentAppended(document, total, [], total);
      assert document[0..total] == document && [] + [document] == segments;
    } else {
      segments := CutUp(document, Min(total, SEGMENT_MAX_CHARS));
    }
    SplitUnique(document, segments, Segments(document));
    SplitBounds(document, segments);
  }

  /** The segmenter's main loop. */
  method CutUp(document: string, capped: nat) returns (segments: seq<string>)
    requires 0 < capped <= |document|
    ensures 1 <= |segments| <= MAX_SEGMENTS_PER_MESSAGE && CutUpFrom(document, capped, segments)
    ensures |Joined(segments)| == capped || |segments| == MAX_SEGMENTS_PER_MESSAGE
  {
    segments := [];
    var start := 0;
    while start < capped && |segments| < MAX_SEGMENTS_PER_MESSAGE
      invariant |segments| <= MAX_SEGMENTS_PER_MESSAGE && (start < capped || segments != [])
      invariant CutUpFrom(document, capped, segments)
      invariant start == |Joined(segments)| <= capped
      decreases capped - start
    {
      var target := Min(start + SEGMENT_TARGET_CHARS, capped);
      var end := capped;
      if target < capped {
        end := SnapBoundary(document, start, target, capped);
        CutDistance(document, start, capped, end);
      }
      SegmentAppended(document, capped, segments, end);
      segments := segments + [document[start..end]];
      start := end;
    }
  }
}
