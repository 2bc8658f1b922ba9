/**
 * The name of the downloaded file: the archive's name with a final extension
 * removed, as `name.replace(/\.[^/.]+$/, '')` does, then `_converted.txt`.
 */
module Download {
  import opened Wrappers
  import opened JsString

  const ConvertedSuffix: string := "_converted.txt"

  /**
   * The pattern `\.[^/.]+$` matches at `p`: a dot at `p`, then one or more
   * characters up to the end of the name, none of them a slash or a dot.
   */
  predicate RegexMatchesAt(name: string, p: nat)
  {
    p + 1 < |name| && name[p] == '.' && forall k :: p < k < |name| ==> name[k] != '/' && name[k] != '.'
  }

  /** `name.replace(/\.[^/.]+$/, '')`, through the position of the last dot. */
  function StripFinalExtension(name: string): (stem: string)
    ensures |stem| <= |name| && stem == name[..|stem|]
  {
    match LastIndexOf(name, '.')
    case None => name
    case Some(p) => if p + 1 < |name| && '/' !in name[p + 1..] then name[..p] else name
  }

  /** The download name built from the archive's name. */
  function DownloadName(archiveName: string): string
  {
    StripFinalExtension(archiveName) + ConvertedSuffix
  }

  /**
   * StripFinalExtension does what the regular expression replacement does: it
   * cuts the name at the place where the pattern matches, and it keeps the name
   * whole when the pattern matches nowhere. The pattern matches in one place at most.
   */
  lemma StripFinalExtensionIsRegexReplace(name: string)
    ensures forall p: nat :: RegexMatchesAt(name, p) ==> StripFinalExtension(name) == name[..p]
    ensures (forall p: nat :: !RegexMatchesAt(name, p)) ==> StripFinalExtension(name) == name
    ensures forall p: nat, q: nat :: RegexMatchesAt(name, p) && RegexMatchesAt(name, q) ==> p == q
  {
    forall p: nat | RegexMatchesAt(name, p) ensures StripFinalExtension(name) == name[..p] {
      LastIndexUnique(name, '.', p);
      assert forall k :: p + 1 <= k < |name| ==> name[k] == name[p + 1..][k - p - 1];
      assert '/' !in name[p + 1..];
    }
    match LastIndexOf(name, '.')
    case None =>
    case Some(p) =>
      if p + 1 < |name| && '/' !in name[p + 1..] {
        assert forall k :: p < k < |name| ==> name[k] == name[p + 1..][k - p - 1];
        assert RegexMatchesAt(name, p);
      }
  }

  /** A final `.ext` whose text has no slash or dot is removed. */
  lemma StripRemovesExtension(stem: string, ext: string)
    requires ext != [] && '.' !in ext && '/' !in ext
    ensures StripFinalExtension(stem + "." + ext) == stem
  {
    var name := stem + "." + ext;
    assert name == stem + ['.'] + ext;
    LastIndexAfterStem(stem, '.', ext);
    assert name[|stem| + 1..] == ext;
    assert name[..|stem|] == stem;
  }

  /** A name without a dot is kept whole. */
  lemma StripKeepsNameWithoutDot(name: string)
    requires '.' !in name
    ensures StripFinalExtension(name) == name
  {
  }

  /** A name ending in a dot is kept whole: the pattern needs at least one character after the dot. */
  lemma StripKeepsTrailingDot(stem: string)
    ensures StripFinalExtension(stem + ".") == stem + "."
  {
    assert stem + "." == stem + ['.'] + [];
    LastIndexAfterStem(stem, '.', []);
  }

  /** A name whose text after the last dot holds a slash is kept whole. */
  lemma StripKeepsSlashAfterDot(stem: string, rest: string)
    requires '.' !in rest && '/' in rest
    ensures StripFinalExtension(stem + "." + rest) == stem + "." + rest
  {
    var name := stem + "." + rest;
    assert name == stem + ['.'] + rest;
    LastIndexAfterStem(stem, '.', rest);
    assert name[|stem| + 1..] == rest;
  }

  /** The download name of `stem.ext` is the stem followed by the suffix. */
  lemma DownloadNameAfterStem(stem: string, ext: string)
    requires ext != [] && '.' !in ext && '/' !in ext
    ensures DownloadName(stem + "." + ext) == stem + ConvertedSuffix
  {
    StripRemovesExtension(stem, ext);
  }

  // The examples below take the concrete name or text as a parameter pinned by
  // a precondition, or through its slices, rather than writing the literal in
  // the conclusion: on a literal argument the verifier evaluates the recursive
  // string functions step by step, which makes these proofs slow and unstable.

  /** `MyProj.zip` gives `MyProj_converted.txt`. */
  lemma DownloadNameOfZip(name: string)
    requires |name| == 10 && name[..6] == "MyProj" && name[6..] == ".zip"
    ensures DownloadName(name) == "MyProj_converted.txt"
  {
    assert name == name[..6] + "." + name[7..];
    DownloadNameAfterStem(name[..6], name[7..]);
  }

  /** Only the final extension goes: `archive.tar.gz` gives `archive.tar_converted.txt`. */
  lemma DownloadNameOfDoubleExtension(name: string)
    requires |name| == 14 && name[..11] == "archive.tar" && name[11..] == ".gz"
    ensures DownloadName(name) == "archive.tar_converted.txt"
  {
    assert name == name[..11] + "." + name[12..];
    DownloadNameAfterStem(name[..11], name[12..]);
  }

  /** `noext`, `trailingdot.` and `a.b/c` are kept whole before the suffix. */
  lemma DownloadNameWithoutExtension(name: string)
    requires name == "noext" || name == "trailingdot." || name == "a.b/c"
    ensures DownloadName(name) == name + ConvertedSuffix
  {
    if name == "noext" {
      assert forall k :: 0 <= k < |name| ==> name[k] != '.';
      StripKeepsNameWithoutDot(name);
    } else if name == "trailingdot." {
      StripKeepsTrailingDot("trailingdot");
      assert "trailingdot" + "." == name;
    } else {
      assert "b/c"[1] == '/';
      StripKeepsSlashAfterDot("a", "b/c");
      assert "a" + "." + "b/c" == name;
    }
  }
}
