/** The size cap on message bodies. */
module BodyCap {
  import opened Wrappers
  import opened Utf8

  const BODY_MAX_BYTES := 1048576
  const TRUNCATION_SENTINEL := "\n\n_[truncated by scryd at 1MB]_"

  function Sentinel(): (b: Bytes)
    ensures |b| == |TRUNCATION_SENTINEL| && forall i :: 0 <= i < |b| ==> b[i] <= 0x7F
  {
    Ascii(TRUNCATION_SENTINEL)
  }

  lemma WithSentinelValid(body: Bytes, cut: nat)
    requires Valid(body) && cut <= |body| && Boundary(body, cut)
    ensures Valid(body[..cut] + Sentinel())
  {
    CutAtBoundary(body, cut);
    AsciiValid(Sentinel());
    ValidConcat(body[..cut], Sentinel());
  }

  /** The largest character boundary not behind `maxBytes`. */
  method Utf8SafeTruncate(s: Bytes, maxBytes: nat) returns (idx: nat)
    ensures idx <= |s| && idx <= Max(maxBytes, 0) && Boundary(s, idx)
    ensures forall j :: idx < j <= Min(maxBytes, |s|) ==> !Boundary(s, j)
    ensures Valid(s) ==> Min(maxBytes, |s|) - idx <= 3
  {
    if maxBytes >= |s| {
      return |s|;
    }
    idx := maxBytes;
    while idx > 0 && !Boundary(s, idx)
      invariant idx <= maxBytes
      invariant forall j :: idx < j <= maxBytes ==> !Boundary(s, j)
    {
      idx := idx - 1;
    }
    if Valid(s) {
      var down, _ := BoundaryNear(s, maxBytes);
    }
  }

  /**
   A body within the cap is untouched.  A longer one becomes its longest well-formed prefix that
   leaves room for the sentinel, then the sentinel; at most three bytes of the room are lost.
   */
  method EnforceSizeCap(body: Bytes) returns (out: Bytes, truncatedFrom: Option<nat>)
    requires Valid(body)
    ensures Valid(out) && |out| <= 1048576
    ensures |body| <= 1048576 ==> out == body && truncatedFrom.None?
    ensures |body| > 1048576 ==>
              && truncatedFrom == Some(|body|)
              && |out| >= 1048576 - 3
              && var sentinel := Ascii("\n\n_[truncated by scryd at 1MB]_");
                 var cut := |out| - |sentinel|;
                 && cut <= |body| && Boundary(body, cut) && out == body[..cut] + sentinel
                 && forall j :: cut < j <= 1048576 - |sentinel| ==> !Boundary(body, j)
  {
    if |body| <= BODY_MAX_BYTES {
      return body, None;
    }
    var headBudget := BODY_MAX_BYTES - |Sentinel()|;
    var cut := Utf8SafeTruncate(body, headBudget);
    out := body[..cut] + Sentinel();
    WithSentinelValid(body, cut);
    assert body[..cut] == out[..cut];
    truncatedFrom := Some(|body|);
  }
}
