/**
 * The image relocation pass of the popup: each kept candidate's image is fetched and stored
 * in a COS bucket under a key derived from the MD5 digest of its URL, and the Markdown is
 * rewritten to point at the stored copy. The fetch and the upload are an oracle, and the
 * digest is a parameter.
 */
module Relocate {
  import opened Wrappers
  import opened JsString
  import opened ImageScan

  /** The stored settings the pass reads; None stands for a key that is not stored. */
  datatype CosSettings = CosSettings(
    bucket: Option<string>,
    region: Option<string>,
    secretId: Option<string>,
    secretKey: Option<string>,
    path: Option<string>)

  /** A stored string is truthy when it is present and non-empty. */
  predicate Truthy(v: Option<string>)
  {
    v.Some? && v.value != ""
  }

  /** A COS client exists when bucket, secret id and secret key are truthy; the region is not checked. */
  predicate HasCos(st: CosSettings)
  {
    Truthy(st.bucket) && Truthy(st.secretId) && Truthy(st.secretKey)
  }

  /** `blob.type.split('/')[1] || 'png'`: the second '/'-separated part of the content type, or "png". */
  function FileExtension(contentType: string): (ext: string)
    ensures ext != ""
    ensures '/' !in ext
  {
    var parts := Split(contentType, '/');
    if |parts| > 1 && parts[1] != "" then parts[1] else "png"
  }

  /** A `type/subtype` content type gives its subtype, or "png" when the subtype is empty. */
  lemma FileExtensionOfMediaType(main: string, sub: string)
    requires '/' !in main && '/' !in sub
    ensures FileExtension(main + "/" + sub) == if sub == "" then "png" else sub
  {
    SplitAroundSeparator(main, sub, '/');
    SepIndexNone(main, '/');
    SepIndexNone(sub, '/');
    assert Split(main + "/" + sub, '/') == [main, sub];
  }

  /** A content type without '/' (the empty type of an untyped blob among them) gives "png". */
  lemma FileExtensionWithoutSlash(contentType: string)
    requires '/' !in contentType
    ensures FileExtension(contentType) == "png"
  {
    SepIndexNone(contentType, '/');
  }

  /** The object key: the path prefix (when truthy), the digest, a dot and the extension. */
  function ObjectKey(path: Option<string>, digest: string, ext: string): string
  {
    (if Truthy(path) then path.value else "") + digest + "." + ext
  }

  /**
   * Digests of one length never collide in keys: under the same prefix, two keys are equal
   * exactly when their digests and their extensions are.
   */
  lemma ObjectKeyInjective(path: Option<string>, d1: string, d2: string, e1: string, e2: string)
    requires |d1| == |d2|
    ensures ObjectKey(path, d1, e1) == ObjectKey(path, d2, e2) <==> d1 == d2 && e1 == e2
  {
    var prefix := if Truthy(path) then path.value else "";
    var k1, k2 := ObjectKey(path, d1, e1), ObjectKey(path, d2, e2);
    if k1 == k2 {
      var n := |prefix|;
      assert k1[n..n + |d1|] == d1;
      assert k2[n..n + |d2|] == d2;
      assert k1[n + |d1| + 1..] == e1;
      assert k2[n + |d2| + 1..] == e2;
    }
  }

  /** The object's public location: `https://{bucket}.cos.{region}.myqcloud.com/{key}`. */
  function Location(bucket: Option<string>, region: Option<string>, key: string): string
  {
    "https://" + Shown(bucket) + ".cos." + Shown(region) + ".myqcloud.com/" + key
  }

  /** The key can be read back from the end of the location, so one bucket and region never give two keys one location. */
  lemma LocationEndsWithKey(bucket: Option<string>, region: Option<string>, k1: string, k2: string)
    ensures var loc := Location(bucket, region, k1);
      |k1| < |loc| && loc[..8] == "https://" && loc[|loc| - |k1| - 1..] == "/" + k1
    ensures Location(bucket, region, k1) == Location(bucket, region, k2) <==> k1 == k2
  {
    var host := "https://" + Shown(bucket) + ".cos." + Shown(region) + ".myqcloud.com";
    assert Location(bucket, region, k1) == host + ("/" + k1);
    assert Location(bucket, region, k2) == host + ("/" + k2);
    if Location(bucket, region, k1) == Location(bucket, region, k2) {
      assert (host + ("/" + k1))[|host| + 1..] == k1;
      assert (host + ("/" + k2))[|host| + 1..] == k2;
    }
  }

  /** What the fetch and the upload of one image did: the fetch failed, or it gave a blob of some type that was or was not stored. */
  datatype UploadOutcome = FetchFailed | Fetched(contentType: string, stored: bool)

  /** `uploadImageToCos`: the new location on success, None when the fetch or the upload fails. */
  function UploadImage(st: CosSettings, url: string, outcome: UploadOutcome, hash: string -> string): Option<string>
  {
    match outcome
    case FetchFailed => None
    case Fetched(contentType, stored) =>
      if stored then Some(Location(st.bucket, st.region, ObjectKey(st.path, hash(url), FileExtension(contentType))))
      else None
  }

  /**
   * An upload succeeds exactly when the blob was fetched and stored, and then the new URL
   * is the bucket's location of the key made of the URL's digest and the blob's extension.
   */
  lemma UploadImageResult(st: CosSettings, url: string, outcome: UploadOutcome, hash: string -> string)
    ensures UploadImage(st, url, outcome, hash).Some? <==> outcome.Fetched? && outcome.stored
    ensures UploadImage(st, url, outcome, hash).Some? ==>
      var loc := UploadImage(st, url, outcome, hash).value;
      var tail := "/" + ObjectKey(st.path, hash(url), FileExtension(outcome.contentType));
      loc[..8] == "https://" && |tail| <= |loc| && loc[|loc| - |tail|..] == tail
  {
    if outcome.Fetched? && outcome.stored {
      var key := ObjectKey(st.path, hash(url), FileExtension(outcome.contentType));
      LocationEndsWithKey(st.bucket, st.region, key, key);
    }
  }

  /** The replacement text for a relocated candidate. */
  function ImageLink(alt: string, url: string): string
  {
    "![" + alt + "](" + url + ")"
  }

  /** One iteration of the rewrite loop: on success `replace` the candidate's text, on failure leave the text alone. */
  function RewriteStep(md: string, item: Candidate, newUrl: Option<string>): string
  {
    match newUrl
    case None => md
    case Some(u) => ReplaceFirst(md, item.original, ImageLink(item.alt, u))
  }

  /** The text after the rewrite loop has handled `items` in order; the i-th upload has outcome `outcome(i)`. */
  function Rewritten(md: string, items: seq<Candidate>, st: CosSettings, outcome: nat -> UploadOutcome, hash: string -> string): string
  {
    if items == [] then md
    else
      var n := |items| - 1;
      RewriteStep(Rewritten(md, items[..n], st, outcome, hash), items[n], UploadImage(st, items[n].url, outcome(n), hash))
  }

  /** The rewrite loop: upload each candidate in order and, on success, replace its first occurrence in the current text. */
  method RelocateImages(md: string, items: seq<Candidate>, st: CosSettings, outcome: nat -> UploadOutcome, hash: string -> string)
    returns (result: string)
    ensures result == Rewritten(md, items, st, outcome, hash)
  {
    result := md;
    for i := 0 to |items|
      invariant result == Rewritten(md, items[..i], st, outcome, hash)
    {
      assert items[..i + 1][..i] == items[..i];
      var item := items[i];
      var newUrl := UploadImage(st, item.url, outcome(i), hash);
      if newUrl.Some? {
        result := ReplaceFirst(result, item.original, ImageLink(item.alt, newUrl.value));
      }
    }
    assert items[..|items|] == items;
  }

  /** The whole pass: without a COS client nothing changes; otherwise extract the candidates and rewrite. */
  function Processed(md: string, st: CosSettings, outcome: nat -> UploadOutcome, hash: string -> string): string
  {
    if HasCos(st) then Rewritten(md, Candidates(md), st, outcome, hash) else md
  }

  /** The image-processing part of the conversion handler. */
  method ProcessImages(md: string, st: CosSettings, outcome: nat -> UploadOutcome, hash: string -> string)
    returns (result: string)
    ensures result == Processed(md, st, outcome, hash)
  {
    result := md;
    if HasCos(st) {
      var replacements := ExtractCandidates(md);
      result := RelocateImages(md, replacements, st, outcome, hash);
    }
  }

  /** When every upload fails, the loop goes through all candidates and leaves the text as it was. */
  lemma {:induction false} FailedUploadsKeepText(md: string, items: seq<Candidate>, st: CosSettings, outcome: nat -> UploadOutcome, hash: string -> string)
    requires forall i :: 0 <= i < |items| ==> UploadImage(st, items[i].url, outcome(i), hash).None?
    ensures Rewritten(md, items, st, outcome, hash) == md
  {
    if items != [] {
      var n := |items| - 1;
      assert forall i :: 0 <= i < n ==> items[..n][i] == items[i];
      FailedUploadsKeepText(md, items[..n], st, outcome, hash);
    }
  }

  /**
   * A successful step with no `$` in the replacement splices the new link in place of the
   * first occurrence of the candidate's text and keeps everything else; with no occurrence
   * it changes nothing.
   */
  lemma RewriteStepSplices(md: string, item: Candidate, newUrl: string)
    requires '$' !in item.alt && '$' !in newUrl
    ensures var r := RewriteStep(md, item, Some(newUrl));
      match IndexOf(md, item.original)
      case None => r == md
      case Some(p) =>
        OccursAt(md, item.original, p) && (forall q :: 0 <= q < p ==> !OccursAt(md, item.original, q))
        && r == md[..p] + ImageLink(item.alt, newUrl) + md[p + |item.original|..]
  {
    ReplaceFirstLiteral(md, item.original, ImageLink(item.alt, newUrl));
  }

  /** Markdown without image syntax comes out of the pass unchanged, whatever the uploads would do. */
  lemma NoImagesUnchanged(md: string, st: CosSettings, outcome: nat -> UploadOutcome, hash: string -> string)
    requires !Includes(md, "![")
    ensures Processed(md, st, outcome, hash) == md
  {
    NoImageSyntaxNoCandidates(md);
  }

  /** A stored `type/subtype` blob is found at the key made of the URL's digest and the subtype. */
  lemma UploadStoredMediaType(st: CosSettings, url: string, hash: string -> string, main: string, sub: string)
    requires '/' !in main && '/' !in sub && sub != ""
    ensures UploadImage(st, url, Fetched(main + "/" + sub, true), hash)
      == Some(Location(st.bucket, st.region, ObjectKey(st.path, hash(url), sub)))
  {
    FileExtensionOfMediaType(main, sub);
  }

  /** With a single candidate, the pass is one rewrite step with the first upload's outcome. */
  lemma ProcessedSingle(md: string, c: Candidate, st: CosSettings, outcome: nat -> UploadOutcome, hash: string -> string)
    requires HasCos(st) && Candidates(md) == [c]
    ensures Processed(md, st, outcome, hash) == RewriteStep(md, c, UploadImage(st, c.url, outcome(0), hash))
  {
    var items := [c];
    assert items[..0] == [] && items[0] == c;
    assert Rewritten(md, items, st, outcome, hash)
      == RewriteStep(Rewritten(md, [], st, outcome, hash), c, UploadImage(st, c.url, outcome(0), hash));
  }

  /**
   * Markdown that is one image hosted on the transient hosts, stored successfully as a
   * `type/subtype` blob, becomes the same image pointing at the bucket's copy.
   */
  lemma SingleImageRelocated(alt: string, url: string, st: CosSettings, outcome: nat -> UploadOutcome, hash: string -> string,
                             main: string, sub: string)
    requires HasCos(st) && IsAltText(alt) && IsUrlText(url) && IsRelocatable(url)
    requires '/' !in main && '/' !in sub && sub != ""
    requires outcome(0) == Fetched(main + "/" + sub, true)
    requires '$' !in ImageLink(alt, Location(st.bucket, st.region, ObjectKey(st.path, hash(url), sub)))
    ensures Processed(ImageLink(alt, url), st, outcome, hash)
      == ImageLink(alt, Location(st.bucket, st.region, ObjectKey(st.path, hash(url), sub)))
  {
    var md := ImageLink(alt, url);
    var c := Candidate(md, url, alt);
    SingleImageCandidates(alt, url);
    ProcessedSingle(md, c, st, outcome, hash);
    UploadStoredMediaType(st, url, hash, main, sub);
    ReplaceWhole(md, ImageLink(alt, Location(st.bucket, st.region, ObjectKey(st.path, hash(url), sub))));
  }

  /** The same single image whose fetch fails stays as it was. */
  lemma SingleImageFetchFails(alt: string, url: string, st: CosSettings, outcome: nat -> UploadOutcome, hash: string -> string)
    requires IsAltText(alt) && IsUrlText(url)
    requires outcome(0) == FetchFailed
    ensures Processed(ImageLink(alt, url), st, outcome, hash) == ImageLink(alt, url)
  {
    var md := ImageLink(alt, url);
    SingleImageCandidates(alt, url);
    if HasCos(st) && IsRelocatable(url) {
      ProcessedSingle(md, Candidate(md, url, alt), st, outcome, hash);
    }
  }
}
