/** The catalogue of specification files (`getAllOpenApiSpecs`): which
    `(category, name)` pairs the spec root yields, and which file the
    loader reads for a pair. The file system is an abstract listing: what
    `readdirSync` and `statSync` report for each name, or that they throw. */
module OpenApiSpecs {
  import opened Js

  /** What the file system reports for one name in the spec root. */
  datatype Kind =
    | Unstatable                              // `statSync` throws
    | NotDirectory
    | Directory(files: Option<seq<string>>)   // its listing; `None` when `readdirSync` throws

  datatype DirEntry = DirEntry(name: string, kind: Kind)

  /** One catalogue entry: a category directory and a spec name in it. */
  datatype SpecRef = SpecRef(category: string, name: string)

  /** The file names the catalogue keeps. */
  predicate IsYamlFile(file: string) {
    EndsWith(file, ".yaml") || EndsWith(file, ".yml")
  }

  /** `path.extname(file)` for a file the catalogue keeps. */
  function Extension(file: string): (ext: string)
    requires IsYamlFile(file)
    ensures EndsWith(file, ext)
    ensures ext == ".yaml" || ext == ".yml"
  {
    if EndsWith(file, ".yaml") then ".yaml" else ".yml"
  }

  /** `path.basename(file, path.extname(file))`: the file name without its
      final extension. */
  function SpecName(file: string): string
    requires IsYamlFile(file)
  {
    file[..|file| - |Extension(file)|]
  }

  /** A YAML file name is its spec name followed by its extension. */
  lemma SpecNameSplits(file: string)
    requires IsYamlFile(file)
    ensures SpecName(file) + Extension(file) == file
  {
    EndsWithSlice(file, Extension(file));
    assert file == file[..|file| - |Extension(file)|] + file[|file| - |Extension(file)|..];
  }

  /** The pair a file contributes to a category: one if it is a YAML file. */
  function FileSpec(category: string, file: string): seq<SpecRef> {
    if IsYamlFile(file) then [SpecRef(category, SpecName(file))] else []
  }

  /** The pairs of one category listing, in listing order. */
  function SpecsIn(category: string, files: seq<string>): seq<SpecRef> {
    if |files| == 0 then []
    else SpecsIn(category, files[..|files| - 1]) + FileSpec(category, files[|files| - 1])
  }

  /** The pairs a root entry contributes: those of its listing if it is a
      readable directory, none otherwise. */
  function CategorySpecs(entry: DirEntry): seq<SpecRef> {
    match entry.kind
    case Directory(Some(files)) => SpecsIn(entry.name, files)
    case _ => []
  }

  /** The pairs of every readable category of a root listing, in order. */
  function Catalogue(entries: seq<DirEntry>): seq<SpecRef> {
    if |entries| == 0 then []
    else Catalogue(entries[..|entries| - 1]) + CategorySpecs(entries[|entries| - 1])
  }

  predicate AllStatable(entries: seq<DirEntry>) {
    forall i :: 0 <= i < |entries| ==> !entries[i].kind.Unstatable?
  }

  /** Position of the first directory whose listing fails (`|entries|` when
      there is none). */
  function FirstUnlistable(entries: seq<DirEntry>): (n: nat)
    ensures n <= |entries|
    ensures forall i :: 0 <= i < n ==> entries[i].kind != Directory(None)
    ensures n < |entries| ==> entries[n].kind == Directory(None)
  {
    if |entries| == 0 then 0
    else if entries[0].kind == Directory(None) then 0
    else 1 + FirstUnlistable(entries[1..])
  }

  /** `getAllOpenApiSpecs()` over the listing `root` of the spec directory
      (`None` when reading it throws). Every failure is caught: a failing
      root read or `statSync` gives no pairs, since every entry is stat'ed
      before any category is read; a category whose listing fails ends
      the walk with the pairs gathered so far. */
  method AllOpenApiSpecs(root: Option<seq<DirEntry>>) returns (specs: seq<SpecRef>)
    ensures root.None? ==> specs == []
    ensures root.Some? && !AllStatable(root.value) ==> specs == []
    ensures root.Some? && AllStatable(root.value) ==>
      specs == Catalogue(root.value[..FirstUnlistable(root.value)])
    ensures root.Some? ==> specs <= Catalogue(root.value)
  {
    specs := [];
    if root.None? {
      return;
    }
    var statable := StatAll(root.value);
    if statable {
      specs := ListCategories(root.value);
      CataloguePrefix(root.value, FirstUnlistable(root.value));
    }
  }

  /** The walk over the categories: read each directory's listing in
      order, stopping at the first one that cannot be read. */
  method ListCategories(entries: seq<DirEntry>) returns (specs: seq<SpecRef>)
    ensures specs == Catalogue(entries[..FirstUnlistable(entries)])
  {
    specs := [];
    var i := 0;
    while i < |entries|
      invariant 0 <= i <= FirstUnlistable(entries)
      invariant specs == Catalogue(entries[..i])
    {
      CatalogueSnoc(entries, i);
      match entries[i].kind {
        case Directory(None) =>
          return;
        case Directory(Some(files)) =>
          var found := ListCategory(entries[i].name, files);
          specs := specs + found;
        case _ =>
      }
      i := i + 1;
    }
  }

  /** The `isDirectory` filter: `statSync` every entry, stopping at the
      first one that throws. */
  method StatAll(entries: seq<DirEntry>) returns (statable: bool)
    ensures statable <==> AllStatable(entries)
  {
    var i := 0;
    while i < |entries|
      invariant 0 <= i <= |entries|
      invariant forall k :: 0 <= k < i ==> !entries[k].kind.Unstatable?
    {
      if entries[i].kind.Unstatable? {
        return false;
      }
      i := i + 1;
    }
    return true;
  }

  /** The pairs of one readable category, pushed file by file. */
  method ListCategory(category: string, files: seq<string>) returns (found: seq<SpecRef>)
    ensures found == SpecsIn(category, files)
  {
    found := [];
    var j := 0;
    while j < |files|
      invariant 0 <= j <= |files|
      invariant found == SpecsIn(category, files[..j])
    {
      assert files[..j + 1][..j] == files[..j];
      if IsYamlFile(files[j]) {
        found := found + [SpecRef(category, SpecName(files[j]))];
      }
      j := j + 1;
    }
    assert files[..j] == files;
  }

  // ---------------------------------------------------------------------
  // The catalogue

  /** Walking one more entry appends that entry's pairs. */
  lemma CatalogueSnoc(entries: seq<DirEntry>, i: nat)
    requires i < |entries|
    ensures Catalogue(entries[..i + 1]) == Catalogue(entries[..i]) + CategorySpecs(entries[i])
  {
    assert entries[..i + 1][..i] == entries[..i];
  }

  /** Catalogues of consecutive listings concatenate. */
  lemma {:induction false} CatalogueAppend(a: seq<DirEntry>, b: seq<DirEntry>)
    ensures Catalogue(a + b) == Catalogue(a) + Catalogue(b)
    decreases |b|
  {
    if |b| > 0 {
      var b' := b[..|b| - 1];
      assert (a + b)[..|a + b| - 1] == a + b';
      CatalogueAppend(a, b');
    } else {
      assert a + b == a;
    }
  }

  /** What a walk cut short at entry `k` gathered is a prefix of the full
      catalogue. */
  lemma CataloguePrefix(entries: seq<DirEntry>, k: nat)
    requires k <= |entries|
    ensures Catalogue(entries[..k]) <= Catalogue(entries)
  {
    assert entries == entries[..k] + entries[k..];
    CatalogueAppend(entries[..k], entries[k..]);
  }

  /** `s` is the pair of a YAML file in `files`. */
  ghost predicate FromFile(files: seq<string>, s: SpecRef) {
    exists f :: f in files && IsYamlFile(f) && s.name == SpecName(f)
  }

  lemma {:induction false} SpecsInHas(category: string, files: seq<string>, s: SpecRef)
    ensures s in SpecsIn(category, files) <==> s.category == category && FromFile(files, s)
  {
    if |files| > 0 {
      var init := files[..|files| - 1];
      var last := files[|files| - 1];
      SpecsInHas(category, init, s);
      assert files == init + [last];
      if s.category == category && FromFile(files, s) {
        var f :| f in files && IsYamlFile(f) && s.name == SpecName(f);
        if f != last {
          assert f in init;
        }
      }
      if FromFile(init, s) {
        var f :| f in init && IsYamlFile(f) && s.name == SpecName(f);
        assert f in files;
      }
    }
  }

  /** A category listing yields a pair for exactly the YAML files in it,
      named by the file name without its extension. */
  lemma SpecsInListed(category: string, files: seq<string>)
    ensures forall s :: s in SpecsIn(category, files) <==>
      s.category == category && exists f :: f in files && IsYamlFile(f) && s.name == SpecName(f)
  {
    forall s
      ensures s in SpecsIn(category, files) <==> s.category == category && FromFile(files, s)
    {
      SpecsInHas(category, files, s);
    }
  }

  /** The set of positions of YAML files in a listing. */
  function YamlPositions(files: seq<string>): set<nat> {
    set i: nat | i < |files| && IsYamlFile(files[i])
  }

  /** A category listing yields one pair per YAML file. */
  lemma {:induction false} SpecsInCount(category: string, files: seq<string>)
    ensures |SpecsIn(category, files)| == |YamlPositions(files)|
  {
    if |files| > 0 {
      SpecsInCount(category, files[..|files| - 1]);
      YamlPositionsSnoc(files);
    } else {
      assert YamlPositions(files) == {};
    }
  }

  /** Appending a file adds its position when it is a YAML file. */
  lemma YamlPositionsSnoc(files: seq<string>)
    requires |files| > 0
    ensures var n := |files| - 1;
      |YamlPositions(files)| == |YamlPositions(files[..n])| + if IsYamlFile(files[n]) then 1 else 0
  {
    var n := |files| - 1;
    var all, before := YamlPositions(files), YamlPositions(files[..n]);
    forall i | i in all && i != n
      ensures i in before
    {
      assert files[..n][i] == files[i];
    }
    forall i | i in before
      ensures i in all
    {
      assert files[..n][i] == files[i];
    }
    assert n !in before;
    if IsYamlFile(files[n]) {
      assert all == before + {n};
    } else {
      assert all == before;
    }
  }

  /** `s` comes from a YAML file of the readable directory `e`. */
  ghost predicate FromCategory(e: DirEntry, s: SpecRef) {
    && e.kind.Directory?
    && e.kind.files.Some?
    && e.name == s.category
    && FromFile(e.kind.files.value, s)
  }

  lemma {:induction false} CatalogueHas(entries: seq<DirEntry>, s: SpecRef)
    ensures s in Catalogue(entries) <==> exists e :: e in entries && FromCategory(e, s)
  {
    if |entries| > 0 {
      var n := |entries| - 1;
      var init, last := entries[..n], entries[n];
      CatalogueHas(init, s);
      CatalogueSnoc(entries, n);
      assert entries[..n + 1] == entries;
      assert s in CategorySpecs(last) <==> FromCategory(last, s) by {
        if last.kind.Directory? && last.kind.files.Some? {
          SpecsInHas(last.name, last.kind.files.value, s);
        }
      }
      if s in Catalogue(init) {
        var e :| e in init && FromCategory(e, s);
        assert e in entries;
      }
      if exists e :: e in entries && FromCategory(e, s) {
        var e :| e in entries && FromCategory(e, s);
        if e != last {
          assert e in init;
        }
      }
    }
  }

  /** The catalogue holds exactly the pairs of YAML files in readable
      directories; other files and entries that are not directories
      contribute nothing. */
  lemma CatalogueListed(entries: seq<DirEntry>)
    ensures forall s :: s in Catalogue(entries) <==> exists e :: e in entries && FromCategory(e, s)
  {
    forall s
      ensures s in Catalogue(entries) <==> exists e :: e in entries && FromCategory(e, s)
    {
      CatalogueHas(entries, s);
    }
  }

  // ---------------------------------------------------------------------
  // The loader's file name

  /** The file `loadOpenApiSpec(category, specName)` reads in the category
      directory: always `<specName>.yaml`. Listing that file gives back
      `specName`. */
  function LoaderFileName(specName: string): (file: string)
    ensures IsYamlFile(file)
    ensures EndsWith(file, ".yaml")
    ensures SpecName(file) == specName
  {
    EndsWithSlice(specName + ".yaml", ".yaml");
    assert (specName + ".yaml")[|specName|..] == ".yaml";
    specName + ".yaml"
  }

  /** No file name ends in both `.yaml` and `.yml`. */
  lemma NotBothExtensions(file: string)
    requires EndsWith(file, ".yml")
    ensures !EndsWith(file, ".yaml")
  {
    EndsWithSlice(file, ".yml");
    EndsWithSlice(file, ".yaml");
    var n := |file|;
    assert file[n - 4..] == ".yml";
    assert file[n - 3] == file[n - 4..][1] == 'y';
    if n >= 5 {
      assert file[n - 5..][2] == file[n - 3];
    }
  }

  /** `<specName>.yml` is a YAML file listed as `specName`. */
  lemma YmlFileName(specName: string)
    ensures IsYamlFile(specName + ".yml")
    ensures SpecName(specName + ".yml") == specName
  {
    var f := specName + ".yml";
    EndsWithSlice(f, ".yml");
    assert f[|f| - 4..] == ".yml";
    NotBothExtensions(f);
  }

  /** A `.yml` file is catalogued, but when no other YAML file of the
      category has its name, the loader's file is not in the listing. */
  lemma ListedYmlSpecNotLoaded(category: string, files: seq<string>, f: string)
    requires f in files
    requires EndsWith(f, ".yml")
    requires forall g :: g in files && IsYamlFile(g) && SpecName(g) == SpecName(f) ==> g == f
    ensures SpecRef(category, SpecName(f)) in SpecsIn(category, files)
    ensures LoaderFileName(SpecName(f)) !in files
  {
    SpecsInListed(category, files);
    NotBothExtensions(f);
  }

  /** The only YAML file names with a given spec name. */
  lemma YamlFilesNamed(specName: string)
    ensures forall f :: IsYamlFile(f) && SpecName(f) == specName ==>
      f == LoaderFileName(specName) || f == specName + ".yml"
  {
    forall f | IsYamlFile(f) && SpecName(f) == specName
      ensures f == LoaderFileName(specName) || f == specName + ".yml"
    {
      SpecNameSplits(f);
    }
  }

  /** The file to read for a catalogued spec: `<specName>.yaml` when the
      category has it, else `<specName>.yml`. */
  function SpecFileName(files: seq<string>, specName: string): (r: Option<string>)
    ensures r.Some? ==> r.value in files && IsYamlFile(r.value) && SpecName(r.value) == specName
    ensures r.None? ==> forall f :: f in files && IsYamlFile(f) ==> SpecName(f) != specName
  {
    YamlFilesNamed(specName);
    YmlFileName(specName);
    if LoaderFileName(specName) in files then Some(LoaderFileName(specName))
    else if specName + ".yml" in files then Some(specName + ".yml")
    else None
  }

  /** Every catalogued spec of a category names a file of that category
      that `SpecFileName` finds. */
  lemma ListedSpecResolves(category: string, files: seq<string>, s: SpecRef)
    requires s in SpecsIn(category, files)
    ensures s.category == category
    ensures SpecFileName(files, s.name).Some?
  {
    SpecsInListed(category, files);
  }
}
