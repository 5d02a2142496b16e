/**
 * Extraction of relocation candidates from rendered Markdown: the global scan with
 * `/!\[(.*?)\]\((.*?)\)/g` and the host filter on each match's URL.
 */
module ImageScan {
  import opened Wrappers
  import opened JsString

  /** The characters `.` does not match in a JavaScript regular expression. */
  predicate IsLineTerminator(c: char)
  {
    c == '\n' || c == '\r' || c == '\U{2028}' || c == '\U{2029}'
  }

  /** `s[from..to]` holds no line terminator. */
  predicate NoLineBreak(s: string, from: nat, to: nat)
    requires from <= to <= |s|
  {
    forall i :: from <= i < to ==> !IsLineTerminator(s[i])
  }

  /** A match of the image pattern: "![" at `start`, "](" at `altEnd`, ")" at `close`. */
  datatype ImageMatch = ImageMatch(start: nat, altEnd: nat, close: nat)

  /** The three marks of `m` lie in order inside `s`, so its parts can be sliced out. */
  predicate WellPlaced(s: string, m: ImageMatch)
  {
    m.start + 2 <= m.altEnd && m.altEnd + 2 <= m.close < |s|
  }

  /** `s` matches `!\[(.*?)\]\((.*?)\)` with "![" at `p`, "](" at `k` and ")" at `j`. */
  predicate IsImageMatch(s: string, p: nat, k: nat, j: nat)
  {
    p + 2 <= k && k + 2 <= j < |s|
    && s[p] == '!' && s[p + 1] == '[' && s[k] == ']' && s[k + 1] == '(' && s[j] == ')'
    && NoLineBreak(s, p + 2, k) && NoLineBreak(s, k + 2, j)
  }

  /**
   * A match as the lazy quantifiers choose it: the alt text holds no "](" and the URL
   * holds no ")".
   */
  predicate IsLazyMatch(s: string, m: ImageMatch)
  {
    IsImageMatch(s, m.start, m.altEnd, m.close)
    && (forall k :: m.start + 2 <= k < m.altEnd ==> !(s[k] == ']' && s[k + 1] == '('))
    && (forall k :: m.altEnd + 2 <= k < m.close ==> s[k] != ')')
  }

  /** The lazy `(.*?)\]\(`: the first "](" at or after `from` that no line terminator precedes. */
  function AltEnd(s: string, from: nat): (r: Option<nat>)
    requires from <= |s|
    ensures r.Some? ==> from <= r.value && r.value + 2 <= |s|
    decreases |s| - from
  {
    if from + 2 > |s| then None
    else if IsLineTerminator(s[from]) then None
    else if s[from] == ']' && s[from + 1] == '(' then Some(from)
    else AltEnd(s, from + 1)
  }

  /** `AltEnd` finds the first "](" before any line terminator, and None only when there is none. */
  lemma {:induction false} AltEndIsFirst(s: string, from: nat)
    requires from <= |s|
    ensures var r := AltEnd(s, from);
      (r.Some? ==> (s[r.value] == ']' && s[r.value + 1] == '(' && NoLineBreak(s, from, r.value)
        && forall k :: from <= k < r.value ==> !(s[k] == ']' && s[k + 1] == '(')))
      && (r.None? ==> forall k :: from <= k && k + 2 <= |s| && NoLineBreak(s, from, k) ==> !(s[k] == ']' && s[k + 1] == '('))
    decreases |s| - from
  {
    if from + 2 <= |s| && !IsLineTerminator(s[from]) && !(s[from] == ']' && s[from + 1] == '(') {
      AltEndIsFirst(s, from + 1);
      assert forall k :: from + 1 <= k <= |s| && NoLineBreak(s, from, k) ==> NoLineBreak(s, from + 1, k);
    }
  }

  /** The lazy `(.*?)\)`: the first ")" at or after `from` that no line terminator precedes. */
  function CloseParen(s: string, from: nat): (r: Option<nat>)
    requires from <= |s|
    ensures r.Some? ==> from <= r.value < |s|
    decreases |s| - from
  {
    if from >= |s| then None
    else if s[from] == ')' then Some(from)
    else if IsLineTerminator(s[from]) then None
    else CloseParen(s, from + 1)
  }

  /** `CloseParen` finds the first ")" before any line terminator, and None only when there is none. */
  lemma {:induction false} CloseParenIsFirst(s: string, from: nat)
    requires from <= |s|
    ensures var r := CloseParen(s, from);
      (r.Some? ==> s[r.value] == ')' && NoLineBreak(s, from, r.value) && forall k :: from <= k < r.value ==> s[k] != ')')
      && (r.None? ==> forall k :: from <= k < |s| && NoLineBreak(s, from, k) ==> s[k] != ')')
    decreases |s| - from
  {
    if from < |s| && s[from] != ')' && !IsLineTerminator(s[from]) {
      CloseParenIsFirst(s, from + 1);
      assert forall k :: from + 1 <= k <= |s| && NoLineBreak(s, from, k) ==> NoLineBreak(s, from + 1, k);
    }
  }

  /** The match the regular expression finds when it tries position `p`, if any. */
  function MatchAt(s: string, p: nat): (r: Option<ImageMatch>)
    requires p <= |s|
    ensures r.Some? ==> r.value.start == p && WellPlaced(s, r.value)
  {
    if p + 2 > |s| || s[p] != '!' || s[p + 1] != '[' then None
    else match AltEnd(s, p + 2)
      case None => None
      case Some(k) =>
        match CloseParen(s, k + 2)
        case None => None
        case Some(j) => Some(ImageMatch(p, k, j))
  }

  /** What `MatchAt` finds is a match with no "](" in its alt text and no ")" in its URL. */
  lemma MatchAtIsLazy(s: string, p: nat)
    requires p <= |s|
    ensures MatchAt(s, p).Some? ==> IsLazyMatch(s, MatchAt(s, p).value)
  {
    if MatchAt(s, p).Some? {
      AltEndIsFirst(s, p + 2);
      CloseParenIsFirst(s, MatchAt(s, p).value.altEnd + 2);
    }
  }

  /**
   * `MatchAt` is the lazy quantifiers' choice: it finds a match at `p` exactly when one
   * exists, and then the one with the shortest alt text and, for that, the shortest URL.
   */
  lemma MatchAtIsShortestMatch(s: string, p: nat)
    requires p <= |s|
    ensures MatchAt(s, p).None? <==> forall k, j :: !IsImageMatch(s, p, k, j)
    ensures MatchAt(s, p).Some? ==> forall k, j :: IsImageMatch(s, p, k, j) ==>
      MatchAt(s, p).value.altEnd < k || (MatchAt(s, p).value.altEnd == k && MatchAt(s, p).value.close <= j)
  {
    MatchAtIsLazy(s, p);
    forall k: nat, j: nat | IsImageMatch(s, p, k, j)
      ensures MatchAt(s, p).Some?
      ensures MatchAt(s, p).value.altEnd < k || (MatchAt(s, p).value.altEnd == k && MatchAt(s, p).value.close <= j)
    {
      AltEndIsFirst(s, p + 2);
      var a := AltEnd(s, p + 2);
      assert a.Some? && a.value <= k;
      CloseParenIsFirst(s, a.value + 2);
      var c := CloseParen(s, a.value + 2);
      if c.None? {
        // The URL scan from the first "](" meets a line terminator before `j`.
        assert false;
      }
      if a.value == k {
        assert c.value <= j;
      }
    }
  }

  /** `regex.exec(s)` from `lastIndex`: the match at the first position at or after `lastIndex` that holds one. */
  function Exec(s: string, lastIndex: nat): (r: Option<ImageMatch>)
    requires lastIndex <= |s|
    ensures r.Some? ==> lastIndex <= r.value.start && WellPlaced(s, r.value)
    decreases |s| - lastIndex
  {
    match MatchAt(s, lastIndex)
    case Some(m) => Some(m)
    case None => if lastIndex == |s| then None else Exec(s, lastIndex + 1)
  }

  /** `exec` returns the match at the first position that holds one, and null when no position does. */
  lemma {:induction false} ExecFindsFirstMatch(s: string, lastIndex: nat)
    requires lastIndex <= |s|
    ensures var r := Exec(s, lastIndex);
      (r.Some? ==> (MatchAt(s, r.value.start) == r && IsLazyMatch(s, r.value)
        && forall q :: lastIndex <= q < r.value.start ==> MatchAt(s, q).None?))
      && (r.None? ==> forall q :: lastIndex <= q <= |s| ==> MatchAt(s, q).None?)
    decreases |s| - lastIndex
  {
    MatchAtIsLazy(s, lastIndex);
    if MatchAt(s, lastIndex).None? && lastIndex < |s| {
      ExecFindsFirstMatch(s, lastIndex + 1);
    }
  }

  /** Every element is a match as the lazy quantifiers choose it. */
  predicate AreMatches(s: string, ms: seq<ImageMatch>)
  {
    forall i :: 0 <= i < |ms| ==> IsLazyMatch(s, ms[i])
  }

  /** Every element is well placed in `s`. */
  predicate AllWellPlaced(s: string, ms: seq<ImageMatch>)
  {
    forall i :: 0 <= i < |ms| ==> WellPlaced(s, ms[i])
  }

  /**
   * The matches of the global scan from `from`, in order: each `exec` resumes right after
   * the previous match, so the matches do not overlap.
   */
  function ScanFrom(s: string, from: nat): (r: seq<ImageMatch>)
    requires from <= |s|
    ensures AllWellPlaced(s, r)
    decreases |s| - from
  {
    match Exec(s, from)
    case None => []
    case Some(m) => [m] + ScanFrom(s, m.close + 1)
  }

  /** The scan's matches start at or after `from` and follow one another without overlapping. */
  lemma {:induction false} ScanInOrder(s: string, from: nat)
    requires from <= |s|
    ensures forall i :: 0 <= i < |ScanFrom(s, from)| ==> from <= ScanFrom(s, from)[i].start
    ensures forall i :: 0 <= i < |ScanFrom(s, from)| - 1 ==> ScanFrom(s, from)[i].close < ScanFrom(s, from)[i + 1].start
    decreases |s| - from
  {
    var r := ScanFrom(s, from);
    if r != [] {
      var rest := ScanFrom(s, r[0].close + 1);
      ScanInOrder(s, r[0].close + 1);
      assert Exec(s, from) == Some(r[0]);
      assert r == [r[0]] + rest;
      forall i | 0 <= i < |r|
        ensures from <= r[i].start
        ensures i < |r| - 1 ==> r[i].close < r[i + 1].start
      {
        if i > 0 {
          assert r[i] == rest[i - 1];
        }
        if i < |r| - 1 {
          assert r[i + 1] == rest[i];
        }
      }
    }
  }

  /** Every match of the scan is a lazy match of the pattern. */
  lemma {:induction false} ScanFindsMatches(s: string, from: nat)
    requires from <= |s|
    ensures AreMatches(s, ScanFrom(s, from))
    decreases |s| - from
  {
    ExecFindsFirstMatch(s, from);
    var r := ScanFrom(s, from);
    if r != [] {
      var rest := ScanFrom(s, r[0].close + 1);
      ScanFindsMatches(s, r[0].close + 1);
      assert r == [r[0]] + rest;
      forall i | 1 <= i < |r|
        ensures IsLazyMatch(s, r[i])
      {
        assert r[i] == rest[i - 1];
      }
    }
  }

  /** The scan finds nothing exactly when no position from `from` on holds a match. */
  lemma ScanEmptyIffNoMatch(s: string, from: nat)
    requires from <= |s|
    ensures ScanFrom(s, from) == [] <==> forall q :: from <= q <= |s| ==> MatchAt(s, q).None?
  {
    ExecFindsFirstMatch(s, from);
  }

  /** A candidate as the rewrite loop receives it: the whole match, its URL and its alt text. */
  datatype Candidate = Candidate(original: string, url: string, alt: string)

  /** The candidate of a match: `match[0]`, `match[2]` and `match[1]`. */
  function ToCandidate(s: string, m: ImageMatch): (c: Candidate)
    requires WellPlaced(s, m)
  {
    Candidate(s[m.start..m.close + 1], s[m.altEnd + 2..m.close], s[m.start + 2..m.altEnd])
  }

  /**
   * The candidate of a lazy match is the text it matched, found at the match's start: "!["
   * and the alt text, "](" and the URL, ")"; the URL holds no ")" and neither part a line break.
   */
  lemma CandidateOfLazyMatch(s: string, m: ImageMatch)
    requires IsLazyMatch(s, m)
    ensures var c := ToCandidate(s, m);
      c.original == "![" + c.alt + "](" + c.url + ")"
      && OccursAt(s, c.original, m.start)
      && ')' !in c.url
      && (forall ch :: ch in c.url ==> !IsLineTerminator(ch))
      && (forall ch :: ch in c.alt ==> !IsLineTerminator(ch))
  {
    assert s[m.start..m.close + 1] == s[m.start..m.start + 2] + s[m.start + 2..m.altEnd]
      + s[m.altEnd..m.altEnd + 2] + s[m.altEnd + 2..m.close] + s[m.close..m.close + 1];
    assert s[m.start..m.start + 2] == "![" && s[m.altEnd..m.altEnd + 2] == "](" && s[m.close..m.close + 1] == ")";
  }

  /** The URL points at the service's transient image hosting. */
  predicate IsRelocatable(url: string)
  {
    Includes(url, "amazonaws.com") || Includes(url, "notion.so")
  }

  /** The candidates of the matches whose URL passes the host filter, in match order. */
  function Relocatable(s: string, ms: seq<ImageMatch>): (r: seq<Candidate>)
    requires AllWellPlaced(s, ms)
    ensures |r| <= |ms|
  {
    if ms == [] then []
    else
      var c := ToCandidate(s, ms[0]);
      (if IsRelocatable(c.url) then [c] else []) + Relocatable(s, ms[1..])
  }

  /**
   * The filter keeps exactly the candidates whose URL names the transient image hosts:
   * every kept candidate passes, and every match that passes is kept.
   */
  lemma {:induction false} RelocatableFilters(s: string, ms: seq<ImageMatch>)
    requires AllWellPlaced(s, ms)
    ensures forall c :: c in Relocatable(s, ms) ==> IsRelocatable(c.url)
    ensures forall i :: 0 <= i < |ms| && IsRelocatable(ToCandidate(s, ms[i]).url) ==> ToCandidate(s, ms[i]) in Relocatable(s, ms)
    ensures forall c :: c in Relocatable(s, ms) ==> exists i :: 0 <= i < |ms| && c == ToCandidate(s, ms[i])
  {
    if ms != [] {
      var tail := ms[1..];
      RelocatableFilters(s, tail);
      assert forall i :: 1 <= i < |ms| ==> ms[i] == tail[i - 1];
      var c := ToCandidate(s, ms[0]);
      var r := Relocatable(s, ms);
      assert r == (if IsRelocatable(c.url) then [c] else []) + Relocatable(s, tail);
      forall x | x in r
        ensures exists i :: 0 <= i < |ms| && x == ToCandidate(s, ms[i])
      {
        if x != c || !IsRelocatable(c.url) {
          var i :| 0 <= i < |tail| && x == ToCandidate(s, tail[i]);
          assert x == ToCandidate(s, ms[i + 1]);
        }
      }
    }
  }

  /** A single match contributes its candidate when the URL passes the filter, and nothing otherwise. */
  lemma RelocatableOne(s: string, m: ImageMatch)
    requires WellPlaced(s, m)
    ensures Relocatable(s, [m]) == if IsRelocatable(ToCandidate(s, m).url) then [ToCandidate(s, m)] else []
  {
    assert [m][1..] == [];
  }

  /**
   * The filter works match by match: filtering two runs of matches one after the other gives
   * the two filtered runs one after the other, so it keeps order and never merges duplicates.
   */
  lemma {:induction false} RelocatableAppend(s: string, a: seq<ImageMatch>, b: seq<ImageMatch>)
    requires AllWellPlaced(s, a) && AllWellPlaced(s, b)
    ensures AllWellPlaced(s, a + b)
    ensures Relocatable(s, a + b) == Relocatable(s, a) + Relocatable(s, b)
    decreases |a|
  {
    if a == [] {
      assert a + b == b;
    } else {
      assert (a + b)[0] == a[0];
      assert (a + b)[1..] == a[1..] + b;
      RelocatableAppend(s, a[1..], b);
    }
  }

  /** The candidates the relocation pass works on. */
  function Candidates(md: string): seq<Candidate>
  {
    Relocatable(md, ScanFrom(md, 0))
  }

  /** One `exec` of the scan: the match it returns, then the scan from just after it. */
  lemma ScanStep(md: string, from: nat, acc: seq<Candidate>)
    requires from <= |md| && Exec(md, from).Some?
    ensures var m := Exec(md, from).value;
      var c := ToCandidate(md, m);
      var rest := Relocatable(md, ScanFrom(md, m.close + 1));
      acc + Relocatable(md, ScanFrom(md, from)) == (if IsRelocatable(c.url) then acc + [c] else acc) + rest
  {
    var m := Exec(md, from).value;
    var c := ToCandidate(md, m);
    var rest := ScanFrom(md, m.close + 1);
    assert ScanFrom(md, from) == [m] + rest;
    assert ([m] + rest)[1..] == rest;
    var next := Relocatable(md, rest);
    if IsRelocatable(c.url) {
      assert acc + ([c] + next) == (acc + [c]) + next;
    } else {
      assert [] + next == next;
    }
  }

  /**
   * Every candidate of the pass is a whole `![alt](url)` image link whose URL holds no ")"
   * and passes the host filter.
   */
  lemma CandidatesWellFormed(md: string)
    ensures forall c :: c in Candidates(md) ==>
      c.original == "![" + c.alt + "](" + c.url + ")" && IsRelocatable(c.url) && ')' !in c.url
  {
    var ms := ScanFrom(md, 0);
    ScanFindsMatches(md, 0);
    RelocatableFilters(md, ms);
    forall c | c in Candidates(md)
      ensures c.original == "![" + c.alt + "](" + c.url + ")" && IsRelocatable(c.url) && ')' !in c.url
    {
      var i :| 0 <= i < |ms| && c == ToCandidate(md, ms[i]);
      CandidateOfLazyMatch(md, ms[i]);
    }
  }

  /**
   * The extraction loop: `exec` until it returns null, pushing every match whose URL passes
   * the host filter.
   */
  method ExtractCandidates(md: string) returns (replacements: seq<Candidate>)
    ensures replacements == Candidates(md)
  {
    replacements := [];
    var lastIndex := 0;
    var found := Exec(md, lastIndex);
    ghost var all := Candidates(md);
    while found.Some?
      invariant lastIndex <= |md|
      invariant found == Exec(md, lastIndex)
      invariant replacements + Relocatable(md, ScanFrom(md, lastIndex)) == all
      decreases |md| - lastIndex
    {
      var m := found.value;
      ScanStep(md, lastIndex, replacements);
      var c := ToCandidate(md, m);
      if IsRelocatable(c.url) {
        replacements := replacements + [c];
      }
      lastIndex := m.close + 1;
      found := Exec(md, lastIndex);
    }
    assert ScanFrom(md, lastIndex) == [];
  }

  /** Markdown without "![" yields no candidates, so the relocation pass cannot change it. */
  lemma NoImageSyntaxNoCandidates(md: string)
    requires !Includes(md, "![")
    ensures ScanFrom(md, 0) == [] && Candidates(md) == []
  {
    IncludesIffOccurs(md, "![");
    ExecFindsFirstMatch(md, 0);
    var r := Exec(md, 0);
    if r.Some? {
      var p := r.value.start;
      assert md[p..p + 2] == "![";
      assert OccursAt(md, "![", p);
    }
  }

  /** `AltEnd` stops at a "](" that no earlier "](" or line terminator precedes. */
  lemma {:induction false} AltEndFinds(s: string, from: nat, k: nat)
    requires from <= k && k + 2 <= |s| && s[k] == ']' && s[k + 1] == '('
    requires NoLineBreak(s, from, k)
    requires forall q :: from <= q < k ==> !(s[q] == ']' && s[q + 1] == '(')
    ensures AltEnd(s, from) == Some(k)
    decreases k - from
  {
    if from < k {
      AltEndFinds(s, from + 1, k);
    }
  }

  /** `CloseParen` stops at a ")" that no earlier ")" or line terminator precedes. */
  lemma {:induction false} CloseParenFinds(s: string, from: nat, j: nat)
    requires from <= j < |s| && s[j] == ')'
    requires NoLineBreak(s, from, j)
    requires forall q :: from <= q < j ==> s[q] != ')'
    ensures CloseParen(s, from) == Some(j)
    decreases j - from
  {
    if from < j {
      CloseParenFinds(s, from + 1, j);
    }
  }

  /** Text that `.` matches throughout and that holds no "](". */
  predicate IsAltText(alt: string)
  {
    (forall ch :: ch in alt ==> !IsLineTerminator(ch))
    && forall k :: 0 <= k < |alt| - 1 ==> !(alt[k] == ']' && alt[k + 1] == '(')
  }

  /** Text that `.` matches throughout and that holds no ")". */
  predicate IsUrlText(url: string)
  {
    ')' !in url && forall ch :: ch in url ==> !IsLineTerminator(ch)
  }

  /**
   * Markdown that is exactly one image link, `![alt](url)`, yields exactly one match, whose
   * candidate is the whole text with that alt text and URL.
   */
  lemma SingleImageMatch(alt: string, url: string)
    requires IsAltText(alt) && IsUrlText(url)
    ensures var md := "![" + alt + "](" + url + ")";
      var m := ImageMatch(0, |alt| + 2, |alt| + |url| + 4);
      ScanFrom(md, 0) == [m] && ToCandidate(md, m) == Candidate(md, url, alt)
  {
    var md := "![" + alt + "](" + url + ")";
    var k, j := |alt| + 2, |alt| + |url| + 4;
    assert md[2..k] == alt && md[k + 2..j] == url;
    assert NoLineBreak(md, 2, k) by {
      forall i | 2 <= i < k
        ensures !IsLineTerminator(md[i])
      {
        assert md[i] == alt[i - 2];
      }
    }
    forall q | 2 <= q < k
      ensures !(md[q] == ']' && md[q + 1] == '(')
    {
      if q + 1 < k {
        assert md[q] == alt[q - 2] && md[q + 1] == alt[q - 1];
      } else {
        assert md[q + 1] == ']';
      }
    }
    AltEndFinds(md, 2, k);
    assert NoLineBreak(md, k + 2, j) by {
      forall i | k + 2 <= i < j
        ensures !IsLineTerminator(md[i])
      {
        assert md[i] == url[i - k - 2];
      }
    }
    forall q | k + 2 <= q < j
      ensures md[q] != ')'
    {
      assert md[q] == url[q - k - 2];
    }
    CloseParenFinds(md, k + 2, j);
    var m := ImageMatch(0, k, j);
    assert MatchAt(md, 0) == Some(m);
    assert Exec(md, j + 1) == None;
    assert ScanFrom(md, j + 1) == [];
    assert md[0..j + 1] == md;
  }

  /** The candidates of a single image link: the link itself when its URL passes the host filter, none otherwise. */
  lemma SingleImageCandidates(alt: string, url: string)
    requires IsAltText(alt) && IsUrlText(url)
    ensures var md := "![" + alt + "](" + url + ")";
      Candidates(md) == if IsRelocatable(url) then [Candidate(md, url, alt)] else []
  {
    var md := "![" + alt + "](" + url + ")";
    var m := ImageMatch(0, |alt| + 2, |alt| + |url| + 4);
    SingleImageMatch(alt, url);
    assert [m][1..] == [];
    assert Relocatable(md, [m][1..]) == [];
  }
}
