/**
 * The page-id helpers of the popup: finding the 32-character id in the last segment of a
 * page URL's path, and the hyphenated 8-4-4-4-12 layout the internal API expects.
 */
module PageId {
  import opened Wrappers
  import opened JsString

  /** A character of the class `[a-f0-9]`. */
  predicate IsLowerHex(c: char)
  {
    '0' <= c <= '9' || 'a' <= c <= 'f'
  }

  /** `[a-f0-9]{32}` matches at position `p` of `s`. */
  predicate HexRunAt(s: string, p: nat)
  {
    p + 32 <= |s| && forall k :: p <= k < p + 32 ==> IsLowerHex(s[k])
  }

  /** The leftmost position at or after `from` where `[a-f0-9]{32}` matches. */
  function FirstHexRun(s: string, from: nat): (r: Option<nat>)
    requires from <= |s|
    ensures r.Some? ==> from <= r.value && HexRunAt(s, r.value)
    decreases |s| - from
  {
    if from + 32 > |s| then None
    else if HexRunAt(s, from) then Some(from)
    else FirstHexRun(s, from + 1)
  }

  /** `FirstHexRun` finds the leftmost match, and None only when there is no match at all. */
  lemma {:induction false} FirstHexRunIsLeftmost(s: string, from: nat)
    requires from <= |s|
    ensures FirstHexRun(s, from).Some? ==> forall q :: from <= q < FirstHexRun(s, from).value ==> !HexRunAt(s, q)
    ensures FirstHexRun(s, from).None? ==> forall q :: from <= q ==> !HexRunAt(s, q)
    decreases |s| - from
  {
    if from + 32 <= |s| && !HexRunAt(s, from) {
      FirstHexRunIsLeftmost(s, from + 1);
    }
  }

  /** `pathSegments[pathSegments.length - 1]` of `pathname.split('/')`. */
  function LastSegment(pathname: string): (r: string)
    ensures |r| <= |pathname| && r == pathname[|pathname| - |r|..] && '/' !in r
    ensures |r| < |pathname| ==> pathname[|pathname| - |r| - 1] == '/'
  {
    LastPieceIsSuffix(pathname, '/');
    LastPiece(pathname, '/')
  }

  /** `getPageIdFromUrl` from the URL's already parsed pathname; None stands for `null`. */
  function PageIdFromPath(pathname: string): Option<string>
  {
    var last := LastSegment(pathname);
    match FirstHexRun(last, 0)
    case None => None
    case Some(p) => Some(last[p..p + 32])
  }

  /**
   * The id is the leftmost run of 32 lowercase hex characters in the last path segment, and
   * there is no id exactly when that segment holds no such run.
   */
  lemma PageIdIsLeftmostHexRun(pathname: string)
    ensures var last := LastSegment(pathname);
      (PageIdFromPath(pathname).None? <==> forall q: nat :: !HexRunAt(last, q))
      && (PageIdFromPath(pathname).Some? ==> exists p: nat ::
            HexRunAt(last, p) && PageIdFromPath(pathname).value == last[p..p + 32]
            && forall q: nat :: q < p ==> !HexRunAt(last, q))
  {
    var last := LastSegment(pathname);
    FirstHexRunIsLeftmost(last, 0);
  }

  /** Only the segment after the last '/' is searched: earlier segments never supply the id. */
  lemma PageIdIgnoresEarlierSegments(dir: string, segment: string)
    requires '/' !in segment
    ensures LastSegment(dir + "/" + segment) == segment
    ensures PageIdFromPath(dir + "/" + segment) == PageIdFromPath(segment)
  {
    SplitAroundSeparator(dir, segment, '/');
    SepIndexNone(segment, '/');
    assert Split(segment, '/') == [segment];
  }

  /** `formatPageId`: a 32-character id in the 8-4-4-4-12 layout of section 3 of RFC 4122; anything else unchanged. */
  function FormatPageId(id: string): (r: string)
    ensures |id| != 32 ==> r == id
    ensures |id| == 32 ==> |r| == 36 && r[8] == '-' && r[13] == '-' && r[18] == '-' && r[23] == '-'
  {
    if |id| != 32 then id
    else id[..8] + "-" + id[8..12] + "-" + id[12..16] + "-" + id[16..20] + "-" + id[20..]
  }

  /** The number of hyphens `formatPageId` puts before the id's character at index `k`. */
  function HyphensBefore(k: nat): nat
  {
    if k < 8 then 0 else if k < 12 then 1 else if k < 16 then 2 else if k < 20 then 3 else 4
  }

  /** The formatted id keeps every character of the id in order, shifted past the hyphens before it. */
  lemma FormatPageIdKeepsCharacters(id: string)
    requires |id| == 32
    ensures forall k :: 0 <= k < 32 ==> FormatPageId(id)[k + HyphensBefore(k)] == id[k]
  {
    var r := FormatPageId(id);
    forall k | 0 <= k < 32
      ensures r[k + HyphensBefore(k)] == id[k]
    {
      if k < 8 {
        assert r[k] == id[..8][k];
      } else if k < 12 {
        assert r[k + 1] == id[8..12][k - 8];
      } else if k < 16 {
        assert r[k + 2] == id[12..16][k - 12];
      } else if k < 20 {
        assert r[k + 3] == id[16..20][k - 16];
      } else {
        assert r[k + 4] == id[20..][k - 20];
      }
    }
  }

  /** `s` with every '-' removed. */
  function RemoveHyphens(s: string): (r: string)
    ensures '-' !in r
  {
    if s == [] then []
    else RemoveHyphens(s[..|s| - 1]) + (if s[|s| - 1] == '-' then [] else [s[|s| - 1]])
  }

  /** Removing hyphens from two strings one after the other. */
  lemma {:induction false} RemoveHyphensAppend(a: string, b: string)
    ensures RemoveHyphens(a + b) == RemoveHyphens(a) + RemoveHyphens(b)
    decreases |b|
  {
    if b == [] {
      assert a + b == a;
    } else {
      var init, c := b[..|b| - 1], b[|b| - 1];
      RemoveHyphensAppend(a, init);
      assert (a + b)[..|a + b| - 1] == a + init;
      var tail := if c == '-' then [] else [c];
      assert (RemoveHyphens(a) + RemoveHyphens(init)) + tail == RemoveHyphens(a) + (RemoveHyphens(init) + tail);
    }
  }

  /** A string without hyphens is its own hyphen-free form. */
  lemma {:induction false} RemoveHyphensNoop(s: string)
    requires '-' !in s
    ensures RemoveHyphens(s) == s
  {
    if s != [] {
      RemoveHyphensNoop(s[..|s| - 1]);
      assert s == s[..|s| - 1] + [s[|s| - 1]];
    }
  }

  /** Removing the hyphens around one hyphen joins the two sides. */
  lemma RemoveHyphenJoint(x: string, y: string)
    ensures RemoveHyphens(x + "-" + y) == RemoveHyphens(x) + RemoveHyphens(y)
  {
    RemoveHyphensAppend(x + "-", y);
    RemoveHyphensAppend(x, "-");
    assert RemoveHyphens("-") == [] by {
      assert "-"[..0] == [];
    }
  }

  /** Removing the hyphens of a formatted hyphen-free id gives the id back. */
  lemma FormatPageIdRoundTrip(id: string)
    requires '-' !in id
    ensures RemoveHyphens(FormatPageId(id)) == id
  {
    if |id| != 32 {
      RemoveHyphensNoop(id);
    } else {
      var a, b, c, d, e := id[..8], id[8..12], id[12..16], id[16..20], id[20..];
      var s1 := a + "-" + b;
      var s2 := s1 + "-" + c;
      var s3 := s2 + "-" + d;
      assert RemoveHyphens(s3) == a + b + c + d by {
        RemoveHyphensNoop(a);
        RemoveHyphensNoop(b);
        RemoveHyphensNoop(c);
        RemoveHyphensNoop(d);
        RemoveHyphenJoint(a, b);
        RemoveHyphenJoint(s1, c);
        RemoveHyphenJoint(s2, d);
      }
      RemoveHyphensNoop(e);
      RemoveHyphenJoint(s3, e);
      assert id == a + b + c + d + e;
    }
  }

  /** A lowercase UUID in the canonical 8-4-4-4-12 layout. */
  predicate IsCanonicalUuid(r: string)
  {
    |r| == 36
    && forall k :: 0 <= k < 36 ==>
      if k == 8 || k == 13 || k == 18 || k == 23 then r[k] == '-' else IsLowerHex(r[k])
  }

  /** The id the cookie mode sends to the internal API: the detected id, hyphenated. */
  function ApiPageId(pathname: string): Option<string>
  {
    match PageIdFromPath(pathname)
    case None => None
    case Some(id) => Some(FormatPageId(id))
  }

  /** Whenever an id is detected, the id sent to the API is a canonical lowercase UUID. */
  lemma ApiPageIdIsCanonical(pathname: string)
    ensures ApiPageId(pathname).Some? ==> IsCanonicalUuid(ApiPageId(pathname).value)
  {
    var last := LastSegment(pathname);
    match FirstHexRun(last, 0)
    case None =>
    case Some(p) =>
      var id := last[p..p + 32];
      assert forall k :: 0 <= k < 32 ==> IsLowerHex(id[k]);
      FormatPageIdKeepsCharacters(id);
      var r := FormatPageId(id);
      forall k | 0 <= k < 36
        ensures if k == 8 || k == 13 || k == 18 || k == 23 then r[k] == '-' else IsLowerHex(r[k])
      {
        if k < 8 {
          assert r[k] == id[k];
        } else if 8 < k < 13 {
          assert r[(k - 1) + HyphensBefore(k - 1)] == id[k - 1];
        } else if 13 < k < 18 {
          assert r[(k - 2) + HyphensBefore(k - 2)] == id[k - 2];
        } else if 18 < k < 23 {
          assert r[(k - 3) + HyphensBefore(k - 3)] == id[k - 3];
        } else if 23 < k {
          assert r[(k - 4) + HyphensBefore(k - 4)] == id[k - 4];
        }
      }
  }
}
