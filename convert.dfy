/**
 * What a conversion does with the decoded archive catalog: skip directories,
 * keep the entries whose extension is on the allow-list, and concatenate one
 * header-and-text block per kept entry, in catalog order.
 */
module Convert {
  import opened JsString

  /** One catalog entry: its path inside the archive, whether it is a directory, and its decoded text. */
  datatype Entry = Entry(name: string, isDir: bool, content: string)

  /** The 30 supported extensions, lower case and without the dot. */
  function SupportedExtensions(): seq<string> {
    ["js", "jsx", "ts", "tsx", "py", "java", "cpp", "cs", "php", "rb", "go", "rs", "swift", "kt", "m",
     "r", "scala", "pl", "sh", "sql", "html", "css", "scss", "sass", "less", "json", "xml", "yml", "yaml", "md"]
  }

  /** `name.split('.').pop().toLowerCase()` */
  function Extension(name: string): string
  {
    Lower(Last(Split(name, '.')))
  }

  /**
   * The extension is the lower-cased text after the last dot, or the whole
   * lower-cased name when there is no dot (it is never empty for that reason).
   */
  lemma ExtensionAfterLastDot(name: string)
    ensures Extension(name) == Lower(match LastIndexOf(name, '.')
                                     case None => name
                                     case Some(p) => name[p + 1..])
  {
    LastPieceAfterLastIndex(name, '.');
  }

  /** A name without a dot is its own extension, lower-cased. */
  lemma ExtensionWithoutDot(name: string)
    requires '.' !in name
    ensures Extension(name) == Lower(name)
  {
    ExtensionAfterLastDot(name);
  }

  /** Whatever comes before the last dot, the extension is what follows it. */
  lemma ExtensionAfterStem(stem: string, suffix: string)
    requires '.' !in suffix
    ensures Extension(stem + "." + suffix) == Lower(suffix)
  {
    var name := stem + "." + suffix;
    assert name == stem + ['.'] + suffix;
    LastIndexAfterStem(stem, '.', suffix);
    ExtensionAfterLastDot(name);
    assert name[|stem| + 1..] == suffix;
  }

  /** `supportedExts.includes(ext)` */
  predicate IsSupported(ext: string)
  {
    ext in SupportedExtensions()
  }

  /** No supported extension is longer than five characters. */
  lemma LongExtensionUnsupported(ext: string)
    requires |ext| > 5
    ensures !IsSupported(ext)
  {
    var exts := SupportedExtensions();
    assert forall i :: 0 <= i < |exts| ==> |exts[i]| <= 5;
  }

  /** An entry contributes a block exactly when it is not a directory and its extension is supported. */
  predicate Keeps(e: Entry)
  {
    !e.isDir && IsSupported(Extension(e.name))
  }

  const HeaderOpen: string := "--- File: "
  const HeaderClose: string := " ---\n\n"
  const BlockEnd: string := "\n\n\n"

  /** The header line of an entry and the blank line after it. */
  function Header(name: string): string
  {
    HeaderOpen + name + HeaderClose
  }

  /** The block a kept entry adds: header, trimmed text, two blank lines. */
  function Block(e: Entry): string
  {
    Header(e.name) + Trim(e.content) + BlockEnd
  }

  /** What one entry adds to the document: its block, or nothing. */
  function Contribution(e: Entry): string
  {
    if Keeps(e) then Block(e) else ""
  }

  /** Left fold of string concatenation: `f(xs[0]) + f(xs[1]) + ...`, built from the left. */
  function ConcatMap<T>(xs: seq<T>, f: T -> string): string
  {
    if xs == [] then "" else ConcatMap(xs[..|xs| - 1], f) + f(xs[|xs| - 1])
  }

  lemma {:induction false} ConcatMapAppend<T>(a: seq<T>, b: seq<T>, f: T -> string)
    ensures ConcatMap(a + b, f) == ConcatMap(a, f) + ConcatMap(b, f)
  {
    if b != [] {
      var b' := b[..|b| - 1];
      ConcatMapAppend(a, b', f);
      assert (a + b)[..|a + b| - 1] == a + b';
      assert (a + b)[|a + b| - 1] == b[|b| - 1];
    } else {
      assert a + b == a;
    }
  }

  lemma ConcatMapSingleton<T>(x: T, f: T -> string)
    ensures ConcatMap([x], f) == f(x)
  {
    assert [x][..0] == [];
  }

  /** The fold is empty exactly when every element contributes nothing. */
  lemma {:induction false} ConcatMapEmptyIff<T>(xs: seq<T>, f: T -> string)
    ensures ConcatMap(xs, f) == [] <==> forall i :: 0 <= i < |xs| ==> f(xs[i]) == []
  {
    if xs != [] {
      var init := xs[..|xs| - 1];
      ConcatMapEmptyIff(init, f);
      assert forall i :: 0 <= i < |init| ==> init[i] == xs[i];
    }
  }

  /** The fold around one element: what comes before it, its own part, what comes after it. */
  lemma {:induction false} ConcatMapAt<T>(xs: seq<T>, i: nat, f: T -> string)
    requires i < |xs|
    ensures ConcatMap(xs, f) == ConcatMap(xs[..i], f) + f(xs[i]) + ConcatMap(xs[i + 1..], f)
  {
    var before, after := xs[..i], xs[i + 1..];
    assert xs == before + ([xs[i]] + after);
    ConcatMapAppend(before, [xs[i]] + after, f);
    ConcatMapAppend([xs[i]], after, f);
    ConcatMapSingleton(xs[i], f);
  }

  /** The merged document: the contributions of the catalog's entries, in catalog order. */
  function Merged(catalog: seq<Entry>): string
  {
    ConcatMap(catalog, Contribution)
  }

  /** One more entry adds its contribution at the end. */
  lemma MergedStep(catalog: seq<Entry>, i: nat)
    requires i < |catalog|
    ensures Merged(catalog[..i + 1]) == Merged(catalog[..i]) + Contribution(catalog[i])
  {
    assert catalog[..i + 1][..i] == catalog[..i];
  }

  /** The loop of the conversion: appends each kept entry's block to `output`. */
  method Assemble(catalog: seq<Entry>) returns (output: string)
    ensures output == Merged(catalog)
  {
    output := "";
    var i := 0;
    while i < |catalog|
      invariant i <= |catalog|
      invariant output == Merged(catalog[..i])
    {
      var e := catalog[i];
      MergedStep(catalog, i);
      if !e.isDir {
        var ext := Extension(e.name);
        if IsSupported(ext) {
          output := output + Header(e.name);
          output := output + Trim(e.content) + BlockEnd;
        }
      }
      i := i + 1;
    }
    assert catalog[..i] == catalog;
  }

  /** The fold splits over a split catalog. */
  lemma MergedAppend(a: seq<Entry>, b: seq<Entry>)
    ensures Merged(a + b) == Merged(a) + Merged(b)
  {
    ConcatMapAppend(a, b, Contribution);
  }

  /** The kept entries, in catalog order. */
  function Kept(catalog: seq<Entry>): (kept: seq<Entry>)
    ensures |kept| <= |catalog|
    ensures forall i :: 0 <= i < |kept| ==> Keeps(kept[i]) && kept[i] in catalog
    ensures forall i :: 0 <= i < |catalog| && Keeps(catalog[i]) ==> catalog[i] in kept
  {
    if catalog == [] then []
    else
      var init, last := catalog[..|catalog| - 1], catalog[|catalog| - 1];
      var rest := Kept(init);
      var own := if Keeps(last) then [last] else [];
      assert catalog == init + [last];
      assert forall x :: x in init ==> x in catalog;
      assert forall x :: x in rest + own <==> x in rest || x in own;
      rest + own
  }

  /** Filtering a single entry keeps it exactly when it passes. */
  lemma KeptSingleton(e: Entry)
    ensures Kept([e]) == if Keeps(e) then [e] else []
  {
    assert [e][..0] == [];
  }

  /** Filtering commutes with concatenation, so the kept entries stay in catalog order. */
  lemma {:induction false} KeptAppend(a: seq<Entry>, b: seq<Entry>)
    ensures Kept(a + b) == Kept(a) + Kept(b)
  {
    if b == [] {
      assert a + b == a;
    } else {
      var init, last := b[..|b| - 1], b[|b| - 1];
      KeptAppend(a, init);
      assert (a + b)[..|a + b| - 1] == a + init;
      assert (a + b)[|a + b| - 1] == last;
    }
  }

  /** The document is the concatenation of the blocks of the kept entries, in catalog order. */
  lemma {:induction false} MergedIsBlocksOfKept(catalog: seq<Entry>)
    ensures Merged(catalog) == ConcatMap(Kept(catalog), Block)
  {
    if catalog != [] {
      var init, last := catalog[..|catalog| - 1], catalog[|catalog| - 1];
      MergedIsBlocksOfKept(init);
      assert Merged(catalog) == Merged(init) + Contribution(last);
      if Keeps(last) {
        ConcatMapAppend(Kept(init), [last], Block);
        ConcatMapSingleton(last, Block);
      } else {
        assert Kept(catalog) == Kept(init);
      }
    }
  }

  /** An entry contributes nothing exactly when it is not kept: a block is never empty. */
  lemma ContributionEmptyIff(e: Entry)
    ensures Contribution(e) == [] <==> !Keeps(e)
  {
    assert |Header(e.name)| >= |HeaderOpen| > 0;
  }

  /** The document is empty exactly when no entry is kept. */
  lemma MergedEmptyIff(catalog: seq<Entry>)
    ensures Merged(catalog) == [] <==> forall i :: 0 <= i < |catalog| ==> !Keeps(catalog[i])
  {
    ConcatMapEmptyIff(catalog, Contribution);
    forall i | 0 <= i < |catalog| ensures Contribution(catalog[i]) == [] <==> !Keeps(catalog[i]) {
      ContributionEmptyIff(catalog[i]);
    }
  }

  /**
   * Each kept entry's block sits in the document right after the blocks of the
   * entries before it, and right before those of the entries after it.
   */
  lemma BlockInPlace(catalog: seq<Entry>, i: nat)
    requires i < |catalog| && Keeps(catalog[i])
    ensures Merged(catalog) == Merged(catalog[..i]) + Block(catalog[i]) + Merged(catalog[i + 1..])
  {
    ConcatMapAt(catalog, i, Contribution);
  }

  // The examples below take the concrete name or text as a parameter pinned by
  // a precondition, or through its slices, rather than writing the literal in
  // the conclusion: on a literal argument the verifier evaluates the recursive
  // string functions step by step, which makes these proofs slow and unstable.

  /** `README` has no dot, so its extension is the whole name lower-cased, which is not supported. */
  lemma ReadmeExcluded(name: string)
    requires name == "README"
    ensures Extension(name) == Lower(name) && !IsSupported(Extension(name))
  {
    ExtensionWithoutDot(name);
    LongExtensionUnsupported(Extension(name));
  }

  /** The match is on the lower-cased extension: `a.TS` is kept. */
  lemma UpperCaseExtensionKept(name: string)
    requires name == "a.TS"
    ensures Extension(name) == "ts" && IsSupported(Extension(name))
  {
    ExtensionAfterStem("a", "TS");
    assert "a" + "." + "TS" == name;
    assert Lower("TS") == "ts";
  }

  /** A name without a dot that spells a supported extension is kept, e.g. `R`, `md` and `sh`. */
  lemma DotlessNameKept(name: string)
    requires name == "R" || name == "md" || name == "sh"
    ensures IsSupported(Extension(name))
  {
    ExtensionWithoutDot(name);
    if name == "R" {
      assert Lower(name) == "r";
    } else if name == "md" {
      assert Lower(name) == "md";
    } else {
      assert Lower(name) == "sh";
    }
  }

  /** A dot in a directory name makes the extension run across the slash: `v1.2/README` gives `2/readme`. */
  lemma DotInDirectoryExcluded(name: string)
    requires name == "v1.2/README"
    ensures Extension(name) == Lower("2/README") && !IsSupported(Extension(name))
  {
    ExtensionAfterStem("v1", "2/README");
    assert "v1" + "." + "2/README" == name;
    LongExtensionUnsupported(Extension(name));
  }

  /** Trimming keeps the blank line inside the text and drops the ones around it. */
  lemma TrimExample(text: string)
    requires |text| == 16 && text[..4] == "  \n\n" && text[4..12] == "foo\n\nbar" && text[12..] == "\n\n  "
    ensures Trim(text) == "foo\n\nbar"
  {
    assert text == text[..4] + text[4..12] + text[12..];
    TrimSurrounded(text[..4], text[4..12], text[12..]);
  }

  /** Three entries' contributions, in order. */
  lemma MergedOfThree(a: Entry, b: Entry, c: Entry)
    ensures Merged([a, b, c]) == Contribution(a) + Contribution(b) + Contribution(c)
  {
    MergedAppend([a], [b, c]);
    MergedAppend([b], [c]);
    ConcatMapSingleton(a, Contribution);
    ConcatMapSingleton(b, Contribution);
    ConcatMapSingleton(c, Contribution);
    assert [a] + [b, c] == [a, b, c];
    assert [b] + [c] == [b, c];
  }

  lemma MainPyExtension(name: string)
    requires name == "main.py"
    ensures Extension(name) == "py"
  {
    ExtensionAfterStem("main", "py");
    assert "main" + "." + "py" == name;
    assert Lower("py") == "py";
  }

  lemma NotesTxtExtension(name: string)
    requires name == "notes.txt"
    ensures !IsSupported(Extension(name))
  {
    ExtensionAfterStem("notes", "txt");
    assert "notes" + "." + "txt" == name;
    assert Lower("txt") == "txt";
  }

  lemma PrintHiTrimmed(text: string)
    requires text == "print('hi')"
    ensures Trim(text) == text
  {
    TrimSurrounded("", text, "");
    assert "" + text + "" == text;
  }

  lemma MainPyKept(e: Entry)
    requires e == Entry("main.py", false, "print('hi')")
    ensures Keeps(e)
  {
    MainPyExtension(e.name);
    var ext := Extension(e.name);
    assert ext == "py";
    assert ext in SupportedExtensions();
  }

  lemma MainPyBlock(e: Entry)
    requires e == Entry("main.py", false, "print('hi')")
    ensures Block(e) == "--- File: main.py ---\n\nprint('hi')\n\n\n"
  {
    PrintHiTrimmed(e.content);
  }

  /**
   * A source file, an unsupported file and a directory: only the source file
   * gives a block.
   */
  lemma ScenarioOneSourceFile(main: Entry, notes: Entry, assets: Entry)
    requires main == Entry("main.py", false, "print('hi')")
    requires notes == Entry("notes.txt", false, "remember")
    requires assets == Entry("assets/", true, "")
    ensures Merged([main, notes, assets]) == "--- File: main.py ---\n\nprint('hi')\n\n\n"
  {
    MergedOfThree(main, notes, assets);
    MainPyKept(main);
    MainPyBlock(main);
    NotesTxtExtension(notes.name);
  }
}
