/**
 * The few `String.prototype` operations of JavaScript that the converter relies on:
 * `indexOf`, `includes`, `trim` and `replace` with a string pattern.
 * Strings are sequences of `char`; one `char` stands for one code unit.
 */
module JsString {
  import opened Wrappers

  /** JavaScript's rendering of an optional string inside a template string: `undefined` when absent. */
  function Shown(v: Option<string>): string
  {
    if v.Some? then v.value else "undefined"
  }

  /** `pat` occurs in `s` starting at position `i`. */
  predicate OccursAt(s: string, pat: string, i: nat)
  {
    i + |pat| <= |s| && s[i..i + |pat|] == pat
  }

  /** `s.indexOf(pat, from)`: the first position at or after `from` where `pat` occurs (None stands for -1). */
  function IndexOfFrom(s: string, pat: string, from: nat): (r: Option<nat>)
    ensures r.Some? ==> from <= r.value && OccursAt(s, pat, r.value)
    ensures r.Some? ==> forall k :: from <= k < r.value ==> !OccursAt(s, pat, k)
    ensures r.None? ==> forall k :: from <= k ==> !OccursAt(s, pat, k)
    decreases |s| - from
  {
    if from + |pat| > |s| then None
    else if OccursAt(s, pat, from) then Some(from)
    else IndexOfFrom(s, pat, from + 1)
  }

  /** `s.indexOf(pat)`. */
  function IndexOf(s: string, pat: string): Option<nat>
  {
    IndexOfFrom(s, pat, 0)
  }

  /** `s.includes(pat)`. */
  predicate Includes(s: string, pat: string)
  {
    IndexOf(s, pat).Some?
  }

  lemma IncludesIffOccurs(s: string, pat: string)
    ensures Includes(s, pat) <==> exists k: nat :: OccursAt(s, pat, k)
  {
    if !Includes(s, pat) {
      assert forall k: nat :: !OccursAt(s, pat, k);
    }
  }

  /** The WhiteSpace and LineTerminator code points that `String.prototype.trim` removes. */
  predicate IsTrimmable(c: char)
  {
    c == '\t' || c == '\n' || c == '\U{000B}' || c == '\U{000C}' || c == '\r' || c == ' '
    || c == '\U{00A0}' || c == '\U{1680}' || ('\U{2000}' <= c <= '\U{200A}')
    || c == '\U{2028}' || c == '\U{2029}' || c == '\U{202F}' || c == '\U{205F}'
    || c == '\U{3000}' || c == '\U{FEFF}'
  }

  /** Neither the first nor the last character of `s` is trimmable. */
  predicate NoOuterWhitespace(s: string)
  {
    s == [] || (!IsTrimmable(s[0]) && !IsTrimmable(s[|s| - 1]))
  }

  /** `s.trimStart()`: drops the leading trimmable characters and nothing else. */
  function TrimStart(s: string): (r: string)
    ensures |r| <= |s| && r == s[|s| - |r|..]
    ensures forall k :: 0 <= k < |s| - |r| ==> IsTrimmable(s[k])
    ensures r == [] || !IsTrimmable(r[0])
  {
    if s != [] && IsTrimmable(s[0]) then TrimStart(s[1..]) else s
  }

  /** `s.trimEnd()`: drops the trailing trimmable characters and nothing else. */
  function TrimEnd(s: string): (r: string)
    ensures |r| <= |s| && r == s[..|r|]
    ensures forall k :: |r| <= k < |s| ==> IsTrimmable(s[k])
    ensures r == [] || !IsTrimmable(r[|r| - 1])
  {
    if s != [] && IsTrimmable(s[|s| - 1]) then TrimEnd(s[..|s| - 1]) else s
  }

  /** `s.trim()`. */
  function Trim(s: string): string
  {
    TrimEnd(TrimStart(s))
  }

  /** The number of leading characters `trim` drops. */
  function Leading(s: string): nat
  {
    |s| - |TrimStart(s)|
  }

  /** What `trim` returns neither starts nor ends with a trimmable character. */
  lemma TrimLeavesNoOuterWhitespace(s: string)
    ensures NoOuterWhitespace(Trim(s))
  {
    var t := TrimStart(s);
    var r := TrimEnd(t);
    if r != [] {
      assert r[0] == t[0];
    }
  }

  /** What `trim` returns is the slice of its input that starts after the dropped leading characters. */
  lemma TrimIsInnerSlice(s: string)
    ensures Leading(s) + |Trim(s)| <= |s| && Trim(s) == s[Leading(s)..Leading(s) + |Trim(s)|]
  {
    var t := TrimStart(s);
    var r := TrimEnd(t);
    var i := |s| - |t|;
    assert t == s[i..];
    assert r == t[..|r|];
  }

  /** Only trimmable characters are cut off, on either side of what `trim` returns. */
  lemma TrimCutsOnlyWhitespace(s: string)
    ensures forall k :: 0 <= k < Leading(s) ==> IsTrimmable(s[k])
    ensures forall k :: Leading(s) + |Trim(s)| <= k < |s| ==> IsTrimmable(s[k])
  {
    var t := TrimStart(s);
    var r := TrimEnd(t);
    var i := |s| - |t|;
    assert t == s[i..];
    forall k | i + |r| <= k < |s|
      ensures IsTrimmable(s[k])
    {
      assert s[k] == t[k - i];
    }
  }

  /** A string without outer whitespace is left alone by `trim`. */
  lemma TrimIdempotent(s: string)
    requires NoOuterWhitespace(s)
    ensures Trim(s) == s
  {
  }

  /**
   * GetSubstitution of ECMAScript for a pattern without capture groups: the replacement
   * template with `$$`, `$&`, `` $` `` and `$'` expanded; every other `$` is literal.
   */
  function Substitution(matched: string, before: string, after: string, template: string): (r: string)
    ensures '$' !in template ==> r == template
    decreases |template|
  {
    if template == [] then []
    else if template[0] == '$' && |template| >= 2 && template[1] == '$' then
      "$" + Substitution(matched, before, after, template[2..])
    else if template[0] == '$' && |template| >= 2 && template[1] == '&' then
      matched + Substitution(matched, before, after, template[2..])
    else if template[0] == '$' && |template| >= 2 && template[1] == '`' then
      before + Substitution(matched, before, after, template[2..])
    else if template[0] == '$' && |template| >= 2 && template[1] == '\'' then
      after + Substitution(matched, before, after, template[2..])
    else
      [template[0]] + Substitution(matched, before, after, template[1..])
  }

  /** `s.replace(pat, template)` with a string pattern: only the first occurrence is replaced. */
  function ReplaceFirst(s: string, pat: string, template: string): (r: string)
  {
    match IndexOf(s, pat)
    case None => s
    case Some(i) =>
      s[..i] + Substitution(pat, s[..i], s[i + |pat|..], template) + s[i + |pat|..]
  }

  /** With no `$` in the replacement, `replace` splices the replacement in at the first occurrence; else nothing changes. */
  lemma ReplaceFirstLiteral(s: string, pat: string, template: string)
    requires '$' !in template
    ensures IndexOf(s, pat).None? ==> ReplaceFirst(s, pat, template) == s
    ensures IndexOf(s, pat).Some? ==>
      var i := IndexOf(s, pat).value;
      OccursAt(s, pat, i) && (forall k :: 0 <= k < i ==> !OccursAt(s, pat, k))
      && ReplaceFirst(s, pat, template) == s[..i] + template + s[i + |pat|..]
  {
  }

  /** Replacing a whole string with a template without `$` gives the template. */
  lemma ReplaceWhole(s: string, template: string)
    requires '$' !in template
    ensures ReplaceFirst(s, s, template) == template
  {
    assert OccursAt(s, s, 0);
    assert s[..0] == [] && s[|s|..] == [];
  }

  /** `fields.join(sep)` for a one-character separator. */
  function Join(fields: seq<string>, sep: char): string
  {
    if fields == [] then ""
    else if |fields| == 1 then fields[0]
    else fields[0] + [sep] + Join(fields[1..], sep)
  }

  /** The position of the first separator in `s`, if any. */
  function SepIndex(s: string, sep: char): (r: Option<nat>)
    ensures r.Some? ==> r.value < |s| && s[r.value] == sep && sep !in s[..r.value]
    ensures r.None? ==> sep !in s
  {
    if s == [] then None
    else if s[0] == sep then Some(0)
    else match SepIndex(s[1..], sep)
      case None => None
      case Some(i) =>
        assert s[..i + 1] == [s[0]] + s[1..][..i];
        Some(i + 1)
  }

  /**
   * `s.split(sep)` for a one-character separator: the pieces between separators, in order,
   * which the separator joins back into `s`.
   */
  function Split(s: string, sep: char): (r: seq<string>)
    ensures |r| >= 1
    ensures forall i :: 0 <= i < |r| ==> sep !in r[i]
    decreases |s|
  {
    match SepIndex(s, sep)
    case None => [s]
    case Some(i) =>
      var rest := Split(s[i + 1..], sep);
      var r := [s[..i]] + rest;
      assert r[1..] == rest;
      r
  }

  /** Joining the pieces of a split with the separator gives the string back. */
  lemma {:induction false} JoinSplit(s: string, sep: char)
    ensures Join(Split(s, sep), sep) == s
    decreases |s|
  {
    match SepIndex(s, sep)
    case None =>
    case Some(i) =>
      var rest := Split(s[i + 1..], sep);
      JoinSplit(s[i + 1..], sep);
      var r := [s[..i]] + rest;
      assert r[1..] == rest;
      assert s == s[..i] + [sep] + s[i + 1..];
  }

  /** Splitting undoes joining: separator-free pieces come back exactly. */
  lemma {:induction false} SplitJoin(fields: seq<string>, sep: char)
    requires |fields| >= 1
    requires forall i :: 0 <= i < |fields| ==> sep !in fields[i]
    ensures Split(Join(fields, sep), sep) == fields
    decreases |fields|
  {
    var first := fields[0];
    if |fields| > 1 {
      var rest := fields[1..];
      SplitJoin(rest, sep);
      var s := Join(fields, sep);
      assert s == first + [sep] + Join(rest, sep);
      assert s[..|first|] == first;
      assert SepIndex(s, sep) == Some(|first|) by {
        assert s[|first|] == sep;
      }
      assert s[|first| + 1..] == Join(rest, sep);
      assert fields == [first] + rest;
    }
  }

  /** A string without the separator has no first separator. */
  lemma {:induction false} SepIndexNone(s: string, sep: char)
    requires sep !in s
    ensures SepIndex(s, sep).None?
  {
    if s != [] {
      assert s[0] in s;
      assert forall c :: c in s[1..] ==> c in s;
      SepIndexNone(s[1..], sep);
    }
  }

  /** The first separator of `x + z` is the first of `x`, or else the first of `z`. */
  lemma {:induction false} SepIndexAppend(x: string, z: string, sep: char)
    ensures SepIndex(x + z, sep) == match SepIndex(x, sep)
      case Some(i) => Some(i)
      case None => match SepIndex(z, sep)
        case None => None
        case Some(j) => Some(|x| + j)
  {
    if x == [] {
      assert x + z == z;
    } else {
      assert (x + z)[1..] == x[1..] + z;
      SepIndexAppend(x[1..], z, sep);
    }
  }

  /** Splitting at a separator splits the two sides independently. */
  lemma {:induction false} SplitAroundSeparator(x: string, y: string, sep: char)
    ensures Split(x + [sep] + y, sep) == Split(x, sep) + Split(y, sep)
    decreases |x|
  {
    var s := x + [sep] + y;
    match SepIndex(x, sep)
    case None =>
      assert SepIndex(s, sep) == Some(|x|) by {
        SepIndexAppend(x, [sep] + y, sep);
        assert s == x + ([sep] + y);
        assert SepIndex([sep] + y, sep) == Some(0);
      }
      assert s[..|x|] == x && s[|x| + 1..] == y;
    case Some(i) =>
      assert SepIndex(s, sep) == Some(i) by {
        SepIndexAppend(x, [sep] + y, sep);
        assert s == x + ([sep] + y);
      }
      assert s[..i] == x[..i];
      assert s[i + 1..] == x[i + 1..] + [sep] + y;
      SplitAroundSeparator(x[i + 1..], y, sep);
  }

  /** `s.split(sep)[s.split(sep).length - 1]`. */
  function LastPiece(s: string, sep: char): string
  {
    var r := Split(s, sep);
    r[|r| - 1]
  }

  /** Past the first separator, the last piece is the last piece of the rest. */
  lemma LastPieceAfterSeparator(s: string, sep: char, i: nat)
    requires SepIndex(s, sep) == Some(i)
    ensures LastPiece(s, sep) == LastPiece(s[i + 1..], sep)
  {
    assert Split(s, sep) == [s[..i]] + Split(s[i + 1..], sep);
  }

  /** The last piece of a split is the part after the last separator: a separator-free suffix. */
  lemma {:induction false} LastPieceIsSuffix(s: string, sep: char)
    ensures |LastPiece(s, sep)| <= |s| && LastPiece(s, sep) == s[|s| - |LastPiece(s, sep)|..]
    ensures sep !in LastPiece(s, sep)
    ensures |LastPiece(s, sep)| < |s| ==> s[|s| - |LastPiece(s, sep)| - 1] == sep
    decreases |s|
  {
    match SepIndex(s, sep)
    case None =>
      assert Split(s, sep) == [s];
      assert s[|s| - |s|..] == s;
    case Some(i) =>
      var t := s[i + 1..];
      LastPieceAfterSeparator(s, sep, i);
      LastPieceIsSuffix(t, sep);
      var n := |LastPiece(t, sep)|;
      assert s[|s| - n..] == t[|t| - n..];
      assert s[|s| - n - 1] == if n < |t| then t[|t| - n - 1] else s[i];
  }
}
