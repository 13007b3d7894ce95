/**
 The snippet generator: find the first term, cut a window of bytes around it on character
 boundaries, and mark every term inside.  `terms` is the query split at whitespace.
 */
module Snippet {
  import opened Wrappers
  import opened Utf8

  // ---------------------------------------------------------------- matching

  function AsciiLower(b: byte): byte { if 0x41 <= b <= 0x5A then b + 0x20 else b }

  predicate EqIgnoreAsciiCase(a: Bytes, b: Bytes) {
    |a| == |b| && forall i :: 0 <= i < |a| ==> AsciiLower(a[i]) == AsciiLower(b[i])
  }

  /** The term occurs at byte i, on character boundaries. */
  predicate MatchAt(body: Bytes, i: nat, term: Bytes) {
    && term != [] && i + |term| <= |body|
    && Boundary(body, i) && Boundary(body, i + |term|)
    && EqIgnoreAsciiCase(body[i..i + |term|], term)
  }

  /** Byte for byte: equal, or the two cases of one of the 26 letters. */
  lemma MatchMeans(body: Bytes, i: nat, term: Bytes)
    ensures MatchAt(body, i, term) <==>
            && 0 < |term| && i + |term| <= |body| && Boundary(body, i) && Boundary(body, i + |term|)
            && forall k :: 0 <= k < |term| ==>
                 var a, b := body[i + k] as int, term[k] as int;
                 a == b || (0x41 <= a <= 0x5A && b == a + 0x20) || (0x41 <= b <= 0x5A && a == b + 0x20)
  {
    if 0 < |term| && i + |term| <= |body| {
      var part := body[i..i + |term|];
      assert forall k :: 0 <= k < |term| ==> part[k] == body[i + k];
    }
  }

  predicate AnyMatchAt(body: Bytes, i: nat, terms: seq<Bytes>) {
    exists t :: 0 <= t < |terms| && MatchAt(body, i, terms[t])
  }

  /** Term t occurs at i, and no earlier term of the query does. */
  predicate FirstTerm(body: Bytes, i: nat, terms: seq<Bytes>, t: nat) {
    t < |terms| && MatchAt(body, i, terms[t]) && forall u :: 0 <= u < t ==> !MatchAt(body, i, terms[u])
  }

  /** Length of the first term, in query order, that occurs at i. */
  function MatchLen(body: Bytes, i: nat, terms: seq<Bytes>): Option<nat>
    decreases |terms|
  {
    if terms == [] then None
    else if MatchAt(body, i, terms[0]) then Some(|terms[0]|)
    else MatchLen(body, i, terms[1..])
  }

  lemma {:induction false} MatchLenMeans(body: Bytes, i: nat, terms: seq<Bytes>)
    ensures MatchLen(body, i, terms).None? <==> !AnyMatchAt(body, i, terms)
    ensures var n := MatchLen(body, i, terms);
            n.Some? ==> exists t :: 0 <= t < |terms| && FirstTerm(body, i, terms, t) && |terms[t]| == n.value
    decreases |terms|
  {
    if terms != [] {
      MatchLenMeans(body, i, terms[1..]);
      assert forall t :: 1 <= t < |terms| ==> terms[t] == terms[1..][t - 1];
      assert forall t :: 0 <= t < |terms| - 1 ==> terms[1..][t] == terms[t + 1];
      if MatchAt(body, i, terms[0]) {
        assert FirstTerm(body, i, terms, 0);
      } else if MatchLen(body, i, terms).Some? {
        var t :| 0 <= t < |terms| - 1 && FirstTerm(body, i, terms[1..], t) && |terms[1..][t]| == MatchLen(body, i, terms).value;
        assert FirstTerm(body, i, terms, t + 1);
      }
    }
  }

  method FindFirstMatch(body: Bytes, terms: seq<Bytes>) returns (earliest: Option<nat>)
    ensures earliest.None? <==> forall i :: 0 <= i <= |body| ==> !AnyMatchAt(body, i, terms)
    ensures earliest.Some? ==> AnyMatchAt(body, earliest.value, terms)
    ensures earliest.Some? ==> forall i :: 0 <= i < earliest.value ==> !AnyMatchAt(body, i, terms)
  {
    earliest := None;
    for t := 0 to |terms|
      invariant earliest.Some? ==> exists u :: 0 <= u < t && MatchAt(body, earliest.value, terms[u])
      invariant forall u, i :: 0 <= u < t && 0 <= i <= |body| && MatchAt(body, i, terms[u]) ==>
                  earliest.Some? && earliest.value <= i
    {
      var tl := |terms[t]|;
      if 0 < tl <= |body| {
        var i := 0;
        while i + tl <= |body|
          invariant 0 <= i
          invariant forall j :: 0 <= j < i ==> !MatchAt(body, j, terms[t])
        {
          if Boundary(body, i) && Boundary(body, i + tl) && EqIgnoreAsciiCase(body[i..i + tl], terms[t]) {
            assert MatchAt(body, i, terms[t]);
            if earliest.None? || i < earliest.value { earliest := Some(i); }
            break;
          }
          i := i + 1;
        }
      }
    }
    forall i | AnyMatchAt(body, i, terms) ensures earliest.Some? && earliest.value <= i {
      var t :| 0 <= t < |terms| && MatchAt(body, i, terms[t]);
    }
    if earliest.Some? { assert AnyMatchAt(body, earliest.value, terms); }
  }

  // ---------------------------------------------------------------- windows

  method WindowAround(body: Bytes, pos: nat, maxChars: nat) returns (s: nat, e: nat)
    requires pos <= |body|
    ensures s <= pos <= e <= |body| && Boundary(body, s) && Boundary(body, e)
    // The widest boundary not inside the left half, the nearest one not inside the right half.
    ensures s <= Max(pos - maxChars / 2, 0) && forall j :: s < j <= pos - maxChars / 2 ==> !Boundary(body, j)
    ensures e >= Min(pos + maxChars / 2, |body|) && forall j :: Min(pos + maxChars / 2, |body|) <= j < e ==> !Boundary(body, j)
    ensures Valid(body) ==> Max(pos - maxChars / 2, 0) - s <= 3 && e - Min(pos + maxChars / 2, |body|) <= 3
  {
    var half := maxChars / 2;
    var left, right := Max(pos - half, 0), Min(pos + half, |body|);
    s, e := left, right;
    while s > 0 && !Boundary(body, s)
      invariant s <= left
      invariant forall j :: s < j <= left ==> !Boundary(body, j)
    {
      s := s - 1;
    }
    while e < |body| && !Boundary(body, e)
      invariant right <= e <= |body|
      invariant forall j :: right <= j < e ==> !Boundary(body, j)
    {
      e := e + 1;
    }
    if Valid(body) {
      var down, _ := BoundaryNear(body, left);
      var _, up := BoundaryNear(body, right);
      assert down <= s && e <= up;
    }
  }

  method LeadingWindow(body: Bytes, maxChars: nat) returns (s: nat, e: nat)
    ensures s == 0 && Min(maxChars, |body|) <= e <= |body| && Boundary(body, e)
    ensures forall j :: Min(maxChars, |body|) <= j < e ==> !Boundary(body, j)
    ensures Valid(body) ==> e <= maxChars + 3
  {
    s, e := 0, Min(maxChars, |body|);
    while e < |body| && !Boundary(body, e)
      invariant Min(maxChars, |body|) <= e <= |body|
      invariant forall j :: Min(maxChars, |body|) <= j < e ==> !Boundary(body, j)
    {
      e := e + 1;
    }
    if Valid(body) {
      var _, up := BoundaryNear(body, Min(maxChars, |body|));
      assert e <= up;
    }
  }

  // ---------------------------------------------------------------- marking

  datatype Piece = Piece(text: Bytes, marked: bool)

  function Flatten(pieces: seq<Piece>): Bytes {
    if pieces == [] then [] else pieces[0].text + Flatten(pieces[1..])
  }

  const STARS: Bytes := [0x2A, 0x2A]

  function Output(p: Piece): Bytes { if p.marked then STARS + p.text + STARS else p.text }

  function Rendered(pieces: seq<Piece>): Bytes {
    if pieces == [] then []
    else Output(pieces[0]) + Rendered(pieces[1..])
  }

  /** The end of the character at i. */
  function NextBoundary(s: Bytes, i: nat): (j: nat)
    requires i < |s|
    ensures i < j <= |s| && Boundary(s, j) && forall k :: i < k < j ==> !Boundary(s, k)
    decreases |s| - i
  {
    if i + 1 == |s| || Boundary(s, i + 1) then i + 1 else NextBoundary(s, i + 1)
  }

  /** Where the piece starting at i ends. */
  function PieceEnd(slice: Bytes, i: nat, terms: seq<Bytes>): (j: nat)
    requires i < |slice|
    ensures i < j <= |slice| && (Boundary(slice, i) ==> Boundary(slice, j))
  {
    MatchLenMeans(slice, i, terms);
    match MatchLen(slice, i, terms)
    case Some(n) => i + n
    case None => NextBoundary(slice, i)
  }

  /** Greedy, leftmost: mark what matches here, else step over one character. */
  function Pieces(slice: Bytes, i: nat, terms: seq<Bytes>): seq<Piece>
    requires i <= |slice|
    decreases |slice| - i
  {
    if i == |slice| then []
    else
      var j := PieceEnd(slice, i, terms);
      [Piece(slice[i..j], MatchLen(slice, i, terms).Some?)] + Pieces(slice, j, terms)
  }

  method NextCharBoundary(s: Bytes, i: nat) returns (j: nat)
    requires i < |s|
    ensures j == NextBoundary(s, i)
  {
    j := i + 1;
    while j < |s| && !Boundary(s, j)
      invariant i < j <= |s|
      invariant forall k :: i < k < j ==> !Boundary(s, k)
    {
      j := j + 1;
    }
  }

  /** What the piece at i contributes to the output. */
  function Marked(slice: Bytes, i: nat, terms: seq<Bytes>): Bytes
    requires i < |slice|
  {
    var text := slice[i..PieceEnd(slice, i, terms)];
    if MatchLen(slice, i, terms).Some? then STARS + text + STARS else text
  }

  lemma RenderedStep(slice: Bytes, i: nat, terms: seq<Bytes>)
    requires i < |slice|
    ensures Rendered(Pieces(slice, i, terms)) ==
            Marked(slice, i, terms) + Rendered(Pieces(slice, PieceEnd(slice, i, terms), terms))
  {
    assert Pieces(slice, i, terms)[1..] == Pieces(slice, PieceEnd(slice, i, terms), terms);
  }

  method PushPiece(outIn: Bytes, slice: Bytes, i: nat, terms: seq<Bytes>) returns (out: Bytes, next: nat)
    requires i < |slice|
    ensures next == PieceEnd(slice, i, terms) && out == outIn + Marked(slice, i, terms)
  {
    MatchLenMeans(slice, i, terms);
    var matched := FirstTermAt(slice, i, terms);
    match matched {
      case Some(n) =>
        next := i + n;
        out := outIn + STARS + slice[i..next] + STARS;
        assert out == outIn + (STARS + slice[i..next] + STARS);
      case None =>
        next := NextCharBoundary(slice, i);
        out := outIn + slice[i..next];
    }
  }

  lemma Regrouped(a: Bytes, b: Bytes, c: Bytes)
    ensures a + b + c == a + (b + c)
  {
  }

  method PushHighlighted(outIn: Bytes, slice: Bytes, terms: seq<Bytes>) returns (out: Bytes)
    ensures out == outIn + Rendered(Pieces(slice, 0, terms))
  {
    out := outIn;
    ghost var whole := outIn + Rendered(Pieces(slice, 0, terms));
    ghost var rest := Rendered(Pieces(slice, 0, terms));
    var i := 0;
    while i < |slice|
      invariant 0 <= i <= |slice|
      invariant rest == Rendered(Pieces(slice, i, terms)) && out + rest == whole
    {
      RenderedStep(slice, i, terms);
      ghost var head := Marked(slice, i, terms);
      rest := Rendered(Pieces(slice, PieceEnd(slice, i, terms), terms));
      Regrouped(out, head, rest);
      out, i := PushPiece(out, slice, i, terms);
    }
    assert rest == [];
  }

  method FirstTermAt(slice: Bytes, i: nat, terms: seq<Bytes>) returns (n: Option<nat>)
    ensures n == MatchLen(slice, i, terms)
  {
    n := None;
    assert terms[0..] == terms;
    for t := 0 to |terms|
      invariant MatchLen(slice, i, terms) == MatchLen(slice, i, terms[t..])
    {
      assert terms[t..][0] == terms[t] && terms[t..][1..] == terms[t + 1..];
      if MatchAt(slice, i, terms[t]) {
        return Some(|terms[t]|);
      }
    }
  }

  // ---------------------------------------------------------------- what the marking means

  lemma SplitAt(slice: Bytes, i: nat, j: nat)
    requires i <= j <= |slice|
    ensures slice[i..] == slice[i..j] + slice[j..]
  {
  }

  /** Nothing is lost or reordered: the pieces concatenate to the slice. */
  lemma {:induction false} PiecesConcatenate(slice: Bytes, i: nat, terms: seq<Bytes>)
    requires i <= |slice|
    ensures Flatten(Pieces(slice, i, terms)) == slice[i..]
    decreases |slice| - i
  {
    if i < |slice| {
      var j := PieceEnd(slice, i, terms);
      PiecesConcatenate(slice, j, terms);
      SplitAt(slice, i, j);
    }
  }

  function MarkedCount(pieces: seq<Piece>): nat {
    if pieces == [] then 0 else (if pieces[0].marked then 1 else 0) + MarkedCount(pieces[1..])
  }

  /** Marking adds four bytes per marked piece to the text and nothing else. */
  lemma {:induction false} MarkingAddsOnlyStars(pieces: seq<Piece>)
    ensures |Rendered(pieces)| == |Flatten(pieces)| + 4 * MarkedCount(pieces)
    ensures MarkedCount(pieces) == 0 ==> Rendered(pieces) == Flatten(pieces)
  {
    if pieces != [] { MarkingAddsOnlyStars(pieces[1..]); }
  }

  /** Byte offset at which the k-th piece starts in the unmarked text. */
  function Offset(pieces: seq<Piece>, k: nat): nat
    requires k <= |pieces|
  {
    if k == 0 then 0 else |pieces[0].text| + Offset(pieces[1..], k - 1)
  }

  /** These bytes stand at byte o. */
  predicate StandsAt(out: Bytes, o: nat, bytes: Bytes) { o + |bytes| <= |out| && out[o..o + |bytes|] == bytes }

  /** Two stars, the text, two stars. */
  predicate Starred(out: Bytes, o: nat, text: Bytes) { StandsAt(out, o, [0x2A, 0x2A] + text + [0x2A, 0x2A]) }

  /** The piece stands at byte o: a marked one between its stars, a plain one as it is. */
  predicate Stands(out: Bytes, o: nat, p: Piece) { if p.marked then Starred(out, o, p.text) else StandsAt(out, o, p.text) }

  lemma HeadStands(p: Piece, rest: Bytes)
    ensures Stands(Output(p) + rest, 0, p)
  {
  }

  lemma StandsBehind(head: Bytes, rest: Bytes, o: nat, p: Piece, out: Bytes, q: nat)
    requires Stands(rest, o, p) && out == head + rest && q == |head| + o
    ensures Stands(out, q, p)
  {
    SliceShift(head, rest, o, o + if p.marked then |[0x2A, 0x2A] + p.text + [0x2A, 0x2A]| else |p.text|);
  }

  /** Byte offset at which the k-th piece starts in the output. */
  function OutputOffset(pieces: seq<Piece>, k: nat): nat
    requires k <= |pieces|
  {
    Offset(pieces, k) + 4 * MarkedCount(pieces[..k])
  }

  lemma OutputOffsetStep(pieces: seq<Piece>, k: nat)
    requires 0 < k <= |pieces|
    ensures OutputOffset(pieces, k) == |Output(pieces[0])| + OutputOffset(pieces[1..], k - 1)
  {
    assert pieces[..k][1..] == pieces[1..][..k - 1];
  }

  /** Where everything stands in the output: four bytes on for every piece marked before. */
  lemma {:induction false} PieceStands(pieces: seq<Piece>, k: nat)
    requires k < |pieces|
    ensures Stands(Rendered(pieces), OutputOffset(pieces, k), pieces[k])
    decreases |pieces|
  {
    if k == 0 {
      HeadStands(pieces[0], Rendered(pieces[1..]));
    } else {
      PieceStands(pieces[1..], k - 1);
      OutputOffsetStep(pieces, k);
      StandsBehind(Output(pieces[0]), Rendered(pieces[1..]), OutputOffset(pieces[1..], k - 1), pieces[k],
                   Rendered(pieces), OutputOffset(pieces, k));
    }
  }

  lemma SliceShift(head: Bytes, rest: Bytes, i: nat, j: nat)
    requires i <= j <= |rest|
    ensures (head + rest)[|head| + i..|head| + j] == rest[i..j]
  {
  }

  /**
   A marked piece is the first term of the query that occurs there; where a plain piece starts no
   term matches, and it is one character.
   */
  predicate GreedyPiece(slice: Bytes, o: nat, p: Piece, terms: seq<Bytes>) {
    && o + |p.text| <= |slice| && p.text != [] && p.text == slice[o..o + |p.text|]
    && Boundary(slice, o) && Boundary(slice, o + |p.text|)
    && if p.marked then exists t :: 0 <= t < |terms| && |terms[t]| == |p.text| && FirstTerm(slice, o, terms, t)
       else !AnyMatchAt(slice, o, terms) && o + |p.text| == NextBoundary(slice, o)
  }

  lemma FirstPieceIsGreedy(slice: Bytes, i: nat, terms: seq<Bytes>)
    requires i < |slice| && Boundary(slice, i)
    ensures GreedyPiece(slice, i, Pieces(slice, i, terms)[0], terms)
  {
    MatchLenMeans(slice, i, terms);
  }

  lemma PiecesStep(slice: Bytes, i: nat, terms: seq<Bytes>)
    requires i < |slice|
    ensures Pieces(slice, i, terms) != []
    ensures i + |Pieces(slice, i, terms)[0].text| == PieceEnd(slice, i, terms)
    ensures Pieces(slice, i, terms)[1..] == Pieces(slice, PieceEnd(slice, i, terms), terms)
  {
  }

  predicate GreedyFrom(slice: Bytes, i: nat, ps: seq<Piece>, terms: seq<Bytes>)
    decreases |ps|
  {
    ps == [] || (GreedyPiece(slice, i, ps[0], terms) && GreedyFrom(slice, i + |ps[0].text|, ps[1..], terms))
  }

  lemma {:induction false} PiecesGreedyFrom(slice: Bytes, i: nat, terms: seq<Bytes>)
    requires i <= |slice| && Boundary(slice, i)
    ensures GreedyFrom(slice, i, Pieces(slice, i, terms), terms)
    decreases |slice| - i
  {
    if i < |slice| {
      PiecesStep(slice, i, terms);
      FirstPieceIsGreedy(slice, i, terms);
      PiecesGreedyFrom(slice, PieceEnd(slice, i, terms), terms);
    }
  }

  lemma {:induction false} GreedyAt(slice: Bytes, i: nat, ps: seq<Piece>, terms: seq<Bytes>, k: nat, o: nat)
    requires GreedyFrom(slice, i, ps, terms) && k < |ps| && o == i + Offset(ps, k)
    ensures GreedyPiece(slice, o, ps[k], terms)
    decreases |ps|
  {
    if k > 0 { GreedyAt(slice, i + |ps[0].text|, ps[1..], terms, k - 1, o); }
  }

  /** Every piece of the marking is where and what the greedy rule says. */
  lemma PiecesAreGreedy(slice: Bytes, terms: seq<Bytes>, k: nat)
    requires k < |Pieces(slice, 0, terms)|
    ensures GreedyPiece(slice, Offset(Pieces(slice, 0, terms), k), Pieces(slice, 0, terms)[k], terms)
  {
    var ps := Pieces(slice, 0, terms);
    PiecesGreedyFrom(slice, 0, terms);
    GreedyAt(slice, 0, ps, terms, k, Offset(ps, k));
  }

  lemma TargetIsBoundary(slice: Bytes, target: nat, terms: seq<Bytes>)
    requires AnyMatchAt(slice, target, terms)
    ensures Boundary(slice, target)
  {
  }

  /** Where nothing matches the walk takes one character, and so cannot pass the next boundary. */
  lemma PlainStep(slice: Bytes, i: nat, terms: seq<Bytes>, target: nat)
    requires i < target < |slice| && Boundary(slice, i) && Boundary(slice, target) && !AnyMatchAt(slice, i, terms)
    ensures PieceEnd(slice, i, terms) <= target && Boundary(slice, PieceEnd(slice, i, terms))
    ensures !Pieces(slice, i, terms)[0].marked
  {
    MatchLenMeans(slice, i, terms);
  }

  lemma MarkedHead(slice: Bytes, i: nat, terms: seq<Bytes>)
    requires i < |slice| && AnyMatchAt(slice, i, terms)
    ensures Pieces(slice, i, terms) != [] && Pieces(slice, i, terms)[0].marked
  {
    MatchLenMeans(slice, i, terms);
  }

  lemma OffsetShift(ps: seq<Piece>, k: nat)
    requires k < |ps|
    ensures Offset(ps, k + 1) == |ps[0].text| + Offset(ps[1..], k)
  {
  }

  /** The walk cannot step over the first place where a term matches. */
  lemma {:induction false} FirstMatchIsMarked(slice: Bytes, i: nat, terms: seq<Bytes>, target: nat) returns (k: nat)
    requires i <= target < |slice| && Boundary(slice, i)
    requires AnyMatchAt(slice, target, terms)
    requires forall j :: i <= j < target ==> !AnyMatchAt(slice, j, terms)
    ensures k < |Pieces(slice, i, terms)| && Pieces(slice, i, terms)[k].marked
    ensures i + Offset(Pieces(slice, i, terms), k) == target
    ensures forall j :: 0 <= j < k ==> !Pieces(slice, i, terms)[j].marked
    decreases target - i
  {
    if i == target {
      MarkedHead(slice, i, terms);
      k := 0;
    } else {
      TargetIsBoundary(slice, target, terms);
      PlainStep(slice, i, terms, target);
      PiecesStep(slice, i, terms);
      var rest := FirstMatchIsMarked(slice, PieceEnd(slice, i, terms), terms, target);
      OffsetShift(Pieces(slice, i, terms), rest);
      k := rest + 1;
    }
  }

  lemma {:induction false} RenderedValid(slice: Bytes, i: nat, terms: seq<Bytes>)
    requires Valid(slice) && i <= |slice| && Boundary(slice, i)
    ensures Valid(Rendered(Pieces(slice, i, terms)))
    decreases |slice| - i
  {
    if i < |slice| {
      var j := PieceEnd(slice, i, terms);
      RenderedValid(slice, j, terms);
      SliceValid(slice, i, j);
      StarredValid(slice[i..j]);
      RenderedStep(slice, i, terms);
      ValidConcat(Marked(slice, i, terms), Rendered(Pieces(slice, j, terms)));
    }
  }

  lemma StarredValid(text: Bytes)
    requires Valid(text)
    ensures Valid(STARS + text + STARS)
  {
    AsciiValid(STARS);
    ValidConcat(STARS, text);
    ValidConcat(STARS + text, STARS);
  }

  // ---------------------------------------------------------------- rendering

  const ELLIPSIS: Bytes := [0xE2, 0x80, 0xA6]

  function Edge(cut: bool): Bytes { if cut then ELLIPSIS else [] }

  /** The snippet, with the window it shows and where the first match is. */
  method Render(body: Bytes, terms: seq<Bytes>, maxChars: nat)
    returns (out: Bytes, ghost s: nat, ghost e: nat, ghost first: Option<nat>)
    requires Valid(body)
    ensures s <= e <= |body| && Boundary(body, s) && Boundary(body, e) && e - s <= maxChars + 6
    ensures out == (if s > 0 then [0xE2, 0x80, 0xA6] else []) + Rendered(Pieces(body[s..e], 0, terms))
                   + (if e < |body| then [0xE2, 0x80, 0xA6] else [])
    ensures first.None? <==> forall i :: 0 <= i <= |body| ==> !AnyMatchAt(body, i, terms)
    // Half the budget to either side of the first match, or the whole budget from the front, up to the next characters.
    ensures first.None? ==> s == 0 && Min(maxChars, |body|) <= e <= maxChars + 3
    ensures first.Some? ==>
              && Max(first.value - maxChars / 2, 0) - 3 <= s <= Max(first.value - maxChars / 2, 0)
              && Min(first.value + maxChars / 2, |body|) <= e <= Min(first.value + maxChars / 2, |body|) + 3
    ensures first.Some? ==>
              && AnyMatchAt(body, first.value, terms) && (forall i :: 0 <= i < first.value ==> !AnyMatchAt(body, i, terms))
              && s <= first.value <= e
              && (MarkedAt(body[s..e], terms, first.value - s) <==> FitsAt(body, terms, first.value, e))
    ensures Valid(out)
  {
    var a, b, found := SelectWindow(body, terms, maxChars);
    s, e, first := a, b, found;
    if terms == [] {
      out := Edge(a > 0) + body[a..b] + Edge(b < |body|);
      PlainPieces(body[a..b], 0, terms);
      assert body[a..b][0..] == body[a..b];
    } else {
      out := PushHighlighted(Edge(a > 0), body[a..b], terms);
      out := out + Edge(b < |body|);
    }
    if found.Some? { FirstMatchMarkedIff(body, terms, a, b, found.value); }
    SliceValid(body, s, e);
    RenderedValid(body[s..e], 0, terms);
    EdgesValid(s > 0, Rendered(Pieces(body[s..e], 0, terms)), e < |body|);
  }

  /** Find the first match and the window to show. */
  method SelectWindow(body: Bytes, terms: seq<Bytes>, maxChars: nat) returns (s: nat, e: nat, first: Option<nat>)
    requires Valid(body)
    ensures s <= e <= |body| && Boundary(body, s) && Boundary(body, e) && e - s <= maxChars + 6
    ensures first.None? <==> forall i :: 0 <= i <= |body| ==> !AnyMatchAt(body, i, terms)
    ensures first.None? ==> s == 0 && Min(maxChars, |body|) <= e <= maxChars + 3
    ensures first.Some? ==>
              && Max(first.value - maxChars / 2, 0) - 3 <= s <= Max(first.value - maxChars / 2, 0)
              && Min(first.value + maxChars / 2, |body|) <= e <= Min(first.value + maxChars / 2, |body|) + 3
    ensures first.Some? ==>
              && AnyMatchAt(body, first.value, terms) && (forall i :: 0 <= i < first.value ==> !AnyMatchAt(body, i, terms))
              && s <= first.value <= e
  {
    first := None;
    if terms != [] { first := FindFirstMatch(body, terms); }
    if first.Some? {
      s, e := WindowAround(body, first.value, maxChars);
    } else {
      s, e := LeadingWindow(body, maxChars);
    }
  }

  lemma EdgesValid(left: bool, middle: Bytes, right: bool)
    requires Valid(middle)
    ensures Valid(Edge(left) + middle + Edge(right))
  {
    assert CharLen(ELLIPSIS) == 3 && ELLIPSIS[3..] == [];
    ValidConcat(Edge(left), middle);
    ValidConcat(Edge(left) + middle, Edge(right));
  }

  /** Without terms nothing is marked. */
  lemma {:induction false} PlainPieces(slice: Bytes, i: nat, terms: seq<Bytes>)
    requires i <= |slice| && terms == []
    ensures Rendered(Pieces(slice, i, terms)) == slice[i..]
    decreases |slice| - i
  {
    if i < |slice| {
      var j := NextBoundary(slice, i);
      PlainPieces(slice, j, terms);
      RenderedStep(slice, i, terms);
      SplitAt(slice, i, j);
    }
  }

  lemma SliceOfSlice(body: Bytes, s: nat, e: nat, i: nat, j: nat)
    requires s <= e <= |body| && i <= j <= e - s
    ensures body[s..e][i..j] == body[s + i..s + j]
  {
    var a, b := body[s..e][i..j], body[s + i..s + j];
    forall k | 0 <= k < j - i ensures a[k] == b[k] {
      assert a[k] == body[s..e][i + k] == body[s + i + k];
    }
    assert a == b;
  }

  /** A term matches inside the window exactly where it matches in the body and still fits. */
  lemma MatchInWindow(body: Bytes, s: nat, e: nat, i: nat, term: Bytes)
    requires s <= e <= |body| && Boundary(body, s) && Boundary(body, e) && i <= e - s
    ensures MatchAt(body[s..e], i, term) <==> MatchAt(body, s + i, term) && s + i + |term| <= e
  {
    if i + |term| <= e - s {
      SliceBoundary(body, s, e, i);
      SliceBoundary(body, s, e, i + |term|);
      SliceOfSlice(body, s, e, i, i + |term|);
    }
  }

  lemma NoEarlierInWindow(body: Bytes, terms: seq<Bytes>, s: nat, e: nat, j: nat)
    requires s <= e <= |body| && Boundary(body, s) && Boundary(body, e) && j <= e - s
    requires !AnyMatchAt(body, s + j, terms)
    ensures !AnyMatchAt(body[s..e], j, terms)
  {
    forall u | 0 <= u < |terms| ensures !MatchAt(body[s..e], j, terms[u]) {
      MatchInWindow(body, s, e, j, terms[u]);
    }
  }

  /** Some term matching at `first` ends inside the window. */
  predicate FitsAt(body: Bytes, terms: seq<Bytes>, first: nat, e: nat) {
    exists t :: 0 <= t < |terms| && MatchAt(body, first, terms[t]) && first + |terms[t]| <= e
  }

  /** A marked piece starts at byte o of the slice. */
  predicate MarkedAt(slice: Bytes, terms: seq<Bytes>, o: nat) {
    var pieces := Pieces(slice, 0, terms);
    exists k :: 0 <= k < |pieces| && pieces[k].marked && Offset(pieces, k) == o
  }

  lemma FittingIsMarked(body: Bytes, terms: seq<Bytes>, s: nat, e: nat, first: nat)
    requires s <= first <= e <= |body| && Boundary(body, s) && Boundary(body, e)
    requires forall i :: 0 <= i < first ==> !AnyMatchAt(body, i, terms)
    requires FitsAt(body, terms, first, e)
    ensures MarkedAt(body[s..e], terms, first - s)
  {
    FirstInWindow(body, terms, s, e, first);
    FirstMatchInside(body[s..e], terms, first - s);
    var k := FirstMatchIsMarked(body[s..e], 0, terms, first - s);
  }

  lemma MarkedWasFitting(body: Bytes, terms: seq<Bytes>, s: nat, e: nat, o: nat)
    requires s <= e <= |body| && Boundary(body, s) && Boundary(body, e) && o <= e - s
    requires MarkedAt(body[s..e], terms, o)
    ensures FitsAt(body, terms, s + o, e)
  {
    var slice := body[s..e];
    var k :| 0 <= k < |Pieces(slice, 0, terms)| && Pieces(slice, 0, terms)[k].marked && Offset(Pieces(slice, 0, terms), k) == o;
    PiecesAreGreedy(slice, terms, k);
    var t :| 0 <= t < |terms| && MatchAt(slice, o, terms[t]);
    MatchInWindow(body, s, e, o, terms[t]);
  }

  /**
   The window shows the first match marked, at exactly its position, if and only if some term
   matching there ends inside the window.
   */
  lemma FirstMatchMarkedIff(body: Bytes, terms: seq<Bytes>, s: nat, e: nat, first: nat)
    requires s <= first <= e <= |body| && Boundary(body, s) && Boundary(body, e)
    requires forall i :: 0 <= i < first ==> !AnyMatchAt(body, i, terms)
    ensures MarkedAt(body[s..e], terms, first - s) <==> FitsAt(body, terms, first, e)
  {
    if FitsAt(body, terms, first, e) { FittingIsMarked(body, terms, s, e, first); }
    if MarkedAt(body[s..e], terms, first - s) { MarkedWasFitting(body, terms, s, e, first - s); }
  }

  lemma {:induction false} NoneMarked(pieces: seq<Piece>)
    requires forall j :: 0 <= j < |pieces| ==> !pieces[j].marked
    ensures MarkedCount(pieces) == 0
  {
    if pieces != [] { NoneMarked(pieces[1..]); }
  }

  /** In the window, the query's first term among those that occur at `first` and end inside it. */
  predicate FirstFitting(body: Bytes, terms: seq<Bytes>, first: nat, e: nat, t: nat) {
    && t < |terms| && MatchAt(body, first, terms[t]) && first + |terms[t]| <= e
    && forall u :: 0 <= u < t ==> !(MatchAt(body, first, terms[u]) && first + |terms[u]| <= e)
  }

  /** A marked piece with none before it stands at its own offset. */
  lemma FirstMarkedStands(pieces: seq<Piece>, k: nat)
    requires k < |pieces| && pieces[k].marked && forall j :: 0 <= j < k ==> !pieces[j].marked
    ensures Starred(Rendered(pieces), Offset(pieces, k), pieces[k].text)
  {
    NoneMarked(pieces[..k]);
    PieceStands(pieces, k);
  }

  /** The first place where a term occurs. */
  predicate FirstMatchIs(body: Bytes, terms: seq<Bytes>, first: nat) {
    AnyMatchAt(body, first, terms) && forall i :: 0 <= i < first ==> !AnyMatchAt(body, i, terms)
  }

  lemma FirstMatchInside(body: Bytes, terms: seq<Bytes>, first: nat)
    requires FirstMatchIs(body, terms, first)
    ensures first < |body|
  {
  }

  /** In a slice, the first match stands between its stars, marked as the query's first term that occurs there. */
  lemma FirstPieceShown(slice: Bytes, terms: seq<Bytes>, o: nat) returns (t: nat, text: Bytes)
    requires FirstMatchIs(slice, terms, o)
    ensures FirstTerm(slice, o, terms, t) && |text| == |terms[t]| && text == slice[o..o + |text|]
    ensures Starred(Rendered(Pieces(slice, 0, terms)), o, text)
  {
    FirstMatchInside(slice, terms, o);
    var k := FirstMatchIsMarked(slice, 0, terms, o);
    text := Pieces(slice, 0, terms)[k].text;
    t := MarkedTerm(slice, terms, k, o);
    FirstMarkedStands(Pieces(slice, 0, terms), k);
  }

  lemma MarkedTerm(slice: Bytes, terms: seq<Bytes>, k: nat, o: nat) returns (t: nat)
    requires k < |Pieces(slice, 0, terms)| && Pieces(slice, 0, terms)[k].marked && o == Offset(Pieces(slice, 0, terms), k)
    ensures var text := Pieces(slice, 0, terms)[k].text;
            FirstTerm(slice, o, terms, t) && |text| == |terms[t]| && o + |text| <= |slice| && text == slice[o..o + |text|]
  {
    PiecesAreGreedy(slice, terms, k);
    t :| 0 <= t < |terms| && |terms[t]| == |Pieces(slice, 0, terms)[k].text| && FirstTerm(slice, o, terms, t);
  }

  lemma WindowText(body: Bytes, s: nat, e: nat, first: nat, n: nat)
    requires s <= first && first + n <= e <= |body|
    ensures body[s..e][first - s..first - s + n] == body[first..first + n]
  {
    SliceOfSlice(body, s, e, first - s, first - s + n);
  }

  /** The first match of the body, if it fits, is the first match of the window. */
  lemma FirstInWindow(body: Bytes, terms: seq<Bytes>, s: nat, e: nat, first: nat)
    requires s <= first <= e <= |body| && Boundary(body, s) && Boundary(body, e)
    requires forall i :: 0 <= i < first ==> !AnyMatchAt(body, i, terms)
    requires FitsAt(body, terms, first, e)
    ensures FirstMatchIs(body[s..e], terms, first - s)
  {
    var u :| 0 <= u < |terms| && MatchAt(body, first, terms[u]) && first + |terms[u]| <= e;
    MatchInWindow(body, s, e, first - s, terms[u]);
    forall j | 0 <= j < first - s ensures !AnyMatchAt(body[s..e], j, terms) {
      NoEarlierInWindow(body, terms, s, e, j);
    }
  }

  /** The first match is shown between its stars, at its own place in the window, as the body spells it. */
  lemma FirstMatchStarred(body: Bytes, terms: seq<Bytes>, s: nat, e: nat, first: nat) returns (t: nat, text: Bytes)
    requires s <= first <= e <= |body| && Boundary(body, s) && Boundary(body, e)
    requires forall i :: 0 <= i < first ==> !AnyMatchAt(body, i, terms)
    requires FitsAt(body, terms, first, e)
    ensures FirstFitting(body, terms, first, e, t) && |text| == |terms[t]| && text == body[first..first + |text|]
    ensures Starred(Rendered(Pieces(body[s..e], 0, terms)), first - s, text)
  {
    FirstInWindow(body, terms, s, e, first);
    t, text := WindowMatchStarred(body, terms, s, e, first);
  }

  lemma WindowMatchStarred(body: Bytes, terms: seq<Bytes>, s: nat, e: nat, first: nat) returns (t: nat, text: Bytes)
    requires s <= first <= e <= |body| && Boundary(body, s) && Boundary(body, e)
    requires FirstMatchIs(body[s..e], terms, first - s)
    ensures FirstFitting(body, terms, first, e, t) && |text| == |terms[t]| && text == body[first..first + |text|]
    ensures Starred(Rendered(Pieces(body[s..e], 0, terms)), first - s, text)
  {
    t, text := FirstPieceShown(body[s..e], terms, first - s);
    TextInWindow(body, s, e, first, terms, t, text);
  }

  lemma TextInWindow(body: Bytes, s: nat, e: nat, first: nat, terms: seq<Bytes>, t: nat, text: Bytes)
    requires s <= first <= e <= |body| && Boundary(body, s) && Boundary(body, e)
    requires FirstTerm(body[s..e], first - s, terms, t)
    requires |text| == |terms[t]| && text == body[s..e][first - s..first - s + |text|]
    ensures FirstFitting(body, terms, first, e, t) && text == body[first..first + |text|]
  {
    FirstTermInWindow(body, s, e, first, terms, t);
    WindowText(body, s, e, first, |text|);
  }

  lemma FirstTermInWindow(body: Bytes, s: nat, e: nat, first: nat, terms: seq<Bytes>, t: nat)
    requires s <= first <= e <= |body| && Boundary(body, s) && Boundary(body, e)
    requires FirstTerm(body[s..e], first - s, terms, t)
    ensures FirstFitting(body, terms, first, e, t)
  {
    forall u | 0 <= u <= t
      ensures MatchAt(body[s..e], first - s, terms[u]) <==> MatchAt(body, first, terms[u]) && first + |terms[u]| <= e
    {
      MatchInWindow(body, s, e, first - s, terms[u]);
    }
  }

  /** A first match no longer than half the budget is always marked. */
  lemma ShortFirstMatchMarked(body: Bytes, terms: seq<Bytes>, s: nat, e: nat, first: nat, maxChars: nat, t: nat)
    requires s <= first <= e <= |body| && Boundary(body, s) && Boundary(body, e)
    requires e >= Min(first + maxChars / 2, |body|)
    requires forall i :: 0 <= i < first ==> !AnyMatchAt(body, i, terms)
    requires t < |terms| && MatchAt(body, first, terms[t]) && |terms[t]| <= maxChars / 2
    ensures MarkedAt(body[s..e], terms, first - s)
  {
    FittingIsMarked(body, terms, s, e, first);
  }
}
