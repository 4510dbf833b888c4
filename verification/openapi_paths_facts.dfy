/** What the endpoint index says about the document it was built from:
    which entries it lists, in which order, how often, how many, and that
    every listed entry is found again by the single-endpoint lookup. */
module OpenApiPathsFacts {
  import opened Js
  import opened OpenApiDocument
  import opened OpenApiPaths

  /** The path items of a document, or none when it has no `paths`. */
  function PathsOf(spec: Option<Document>): seq<Property<PathItem>> {
    if spec.None? || spec.value.paths.None? then [] else spec.value.paths.value
  }

  /** `e` is the entry listed for an operation declared in `paths`. */
  ghost predicate Describes(paths: seq<Property<PathItem>>, e: PathEntry) {
    && e.verb in Methods
    && exists op :: DeclaredIn(paths, e.path, e.verb, op) && e == EntryFor(e.path, e.verb, op)
  }

  /** Entry `x` comes before entry `y` in the index: its path comes first
      in the document, or the path is the same and its method comes first
      among get, post, put, delete, patch. */
  predicate Precedes(paths: seq<Property<PathItem>>, x: PathEntry, y: PathEntry) {
    || IndexOf(paths, x.path) < IndexOf(paths, y.path)
    || (x.path == y.path && MethodRank(x.verb) < MethodRank(y.verb))
  }

  /** How many entries of `out` name `path` and `verb`. */
  function Occurrences(out: seq<PathEntry>, path: string, verb: string): nat {
    if |out| == 0 then 0
    else (if out[0].path == path && out[0].verb == verb then 1 else 0) + Occurrences(out[1..], path, verb)
  }

  /** The `(path, method)` pairs named by a list of entries. */
  function Endpoints(out: seq<PathEntry>): set<(string, string)> {
    if |out| == 0 then {} else {(out[0].path, out[0].verb)} + Endpoints(out[1..])
  }

  /** The `(path, method)` pairs, among the five listed methods, at which
      the document declares an operation. */
  ghost function DeclaredEndpoints(spec: Option<Document>): set<(string, string)> {
    var paths := PathsOf(spec);
    set i, k | 0 <= i < |paths| && 0 <= k < |Methods| && HasOperation(spec, paths[i].key, Methods[k])
      :: (paths[i].key, Methods[k])
  }

  // ---------------------------------------------------------------------
  // One path item

  /** `e` is the entry for a present operation of `fields` under one of
      the methods from `Methods[k]` on. */
  ghost predicate ListedFrom(path: string, fields: Object<Option<Operation>>, k: nat, e: PathEntry) {
    && e.path == path
    && k <= MethodRank(e.verb) < |Methods|
    && OperationAt(fields, e.verb).Some?
    && e == EntryFor(path, e.verb, OperationAt(fields, e.verb).value)
  }

  /** The entries' methods strictly ascend in the order of `Methods`. */
  predicate MethodsAscending(out: seq<PathEntry>) {
    forall a, b :: 0 <= a < b < |out| ==> MethodRank(out[a].verb) < MethodRank(out[b].verb)
  }

  lemma MethodRankOfMethod(k: nat)
    requires k < |Methods|
    ensures MethodRank(Methods[k]) == k
  {
    assert k == 0 || k == 1 || k == 2 || k == 3 || k == 4;
  }

  /** Putting an entry whose method ranks below all of an ascending list's
      in front keeps it ascending. */
  lemma AscendingCons(first: PathEntry, tail: seq<PathEntry>)
    requires MethodsAscending(tail)
    requires forall x :: x in tail ==> MethodRank(first.verb) < MethodRank(x.verb)
    ensures MethodsAscending([first] + tail)
  {
    var out := [first] + tail;
    forall a, b | 0 <= a < b < |out|
      ensures MethodRank(out[a].verb) < MethodRank(out[b].verb)
    {
      assert out[b] == tail[b - 1];
      if a > 0 {
        assert out[a] == tail[a - 1];
      }
    }
  }

  /** The entries of one path item are exactly those for the methods from
      `Methods[k]` on whose operation is present, in method order. */
  lemma {:induction false} ItemEntriesListed(path: string, fields: Object<Option<Operation>>, k: nat)
    requires k <= |Methods|
    ensures forall e :: e in ItemEntries(path, fields, k) <==> ListedFrom(path, fields, k, e)
    ensures MethodsAscending(ItemEntries(path, fields, k))
    decreases |Methods| - k
  {
    if k < |Methods| {
      ItemEntriesListed(path, fields, k + 1);
      MethodRankOfMethod(k);
      var m := Methods[k];
      var tail := ItemEntries(path, fields, k + 1);
      var out := ItemEntries(path, fields, k);
      if OperationAt(fields, m).Some? {
        var first := EntryFor(path, m, OperationAt(fields, m).value);
        assert out == [first] + tail;
        assert ListedFrom(path, fields, k, first);
        forall e | e != first
          ensures e in out <==> ListedFrom(path, fields, k, e)
        {
          assert e in out <==> e in tail;
          if MethodRank(e.verb) == k {
            assert e.verb == m;
          }
        }
        forall x | x in tail
          ensures MethodRank(first.verb) < MethodRank(x.verb)
        {
          assert ListedFrom(path, fields, k + 1, x);
        }
        AscendingCons(first, tail);
      } else {
        assert out == tail;
        forall e
          ensures e in out <==> ListedFrom(path, fields, k, e)
        {
          if MethodRank(e.verb) == k {
            assert e.verb == m;
          }
        }
      }
    }
  }

  // ---------------------------------------------------------------------
  // A sequence of path items

  /** An entry of a suffix's index describes the whole sequence too. */
  lemma DescribesTail(paths: seq<Property<PathItem>>, e: PathEntry)
    requires |paths| > 0
    requires Describes(paths[1..], e)
    ensures Describes(paths, e)
  {
    var op :| DeclaredIn(paths[1..], e.path, e.verb, op) && e == EntryFor(e.path, e.verb, op);
    var i, j :| 0 <= i < |paths[1..]| && paths[1..][i].key == e.path && paths[1..][i].value.Item?
      && 0 <= j < |paths[1..][i].value.fields| && paths[1..][i].value.fields[j] == Property(e.verb, Some(op));
    assert paths[i + 1] == paths[1..][i];
    assert DeclaredIn(paths, e.path, e.verb, op);
  }

  /** The index of a sequence of path items lists exactly the entries
      describing its declared operations. */
  lemma {:induction false} EntriesOfListed(paths: seq<Property<PathItem>>, out: seq<PathEntry>)
    requires EntriesOf(paths) == Normal(out)
    ensures forall e :: e in out <==> Describes(paths, e)
  {
    if |paths| > 0 {
      var fields := paths[0].value.fields;
      var rest := EntriesOf(paths[1..]).value;
      var head := ItemEntries(paths[0].key, fields, 0);
      assert out == head + rest;
      EntriesOfListed(paths[1..], rest);
      ItemEntriesListed(paths[0].key, fields, 0);
      forall e
        ensures e in out <==> Describes(paths, e)
      {
        if e in head {
          assert ListedFrom(paths[0].key, fields, 0, e);
          var op := OperationAt(fields, e.verb).value;
          var j :| 0 <= j < |fields| && fields[j] == Property(e.verb, Some(op));
          assert DeclaredIn(paths, e.path, e.verb, op);
        } else if e in rest {
          DescribesTail(paths, e);
        }
        if Describes(paths, e) {
          var op :| DeclaredIn(paths, e.path, e.verb, op) && e == EntryFor(e.path, e.verb, op);
          var i, j :| 0 <= i < |paths| && paths[i].key == e.path && paths[i].value.Item?
            && 0 <= j < |paths[i].value.fields| && paths[i].value.fields[j] == Property(e.verb, Some(op));
          if i == 0 {
            assert OperationAt(fields, e.verb) == Some(op);
            assert ListedFrom(paths[0].key, fields, 0, e);
          } else {
            assert paths[1..][i - 1] == paths[i];
            assert DeclaredIn(paths[1..], e.path, e.verb, op);
          }
        }
      }
    }
  }

  /** Every entry in the index of a sequence of path items names one of
      its keys. */
  lemma {:induction false} EntryPathIsKey(paths: seq<Property<PathItem>>, out: seq<PathEntry>, e: PathEntry)
    requires EntriesOf(paths) == Normal(out)
    requires e in out
    ensures IndexOf(paths, e.path) < |paths|
  {
    EntriesOfListed(paths, out);
    var op :| DeclaredIn(paths, e.path, e.verb, op) && e == EntryFor(e.path, e.verb, op);
    var i :| 0 <= i < |paths| && paths[i].key == e.path;
    IndexOfFinds(paths, e.path);
  }

  /** Every entry of `out` precedes every later one. */
  predicate InIndexOrder(paths: seq<Property<PathItem>>, out: seq<PathEntry>) {
    forall a, b :: 0 <= a < b < |out| ==> Precedes(paths, out[a], out[b])
  }

  /** The index of an object of path items is ordered by path, then by
      method. */
  lemma {:induction false} EntriesOfOrdered(paths: seq<Property<PathItem>>, out: seq<PathEntry>)
    requires DistinctKeys(paths)
    requires EntriesOf(paths) == Normal(out)
    ensures InIndexOrder(paths, out)
  {
    if |paths| > 0 {
      var key := paths[0].key;
      var fields := paths[0].value.fields;
      var rest := EntriesOf(paths[1..]).value;
      var head := ItemEntries(key, fields, 0);
      assert out == head + rest;
      DistinctKeysTail(paths);
      EntriesOfOrdered(paths[1..], rest);
      ItemEntriesListed(key, fields, 0);
      assert IndexOf(paths, key) == 0;
      forall x | x in rest
        ensures IndexOf(paths, x.path) == 1 + IndexOf(paths[1..], x.path)
      {
        EntryPathIsKey(paths[1..], rest, x);
        IndexOfFinds(paths[1..], x.path);
        var n := IndexOf(paths[1..], x.path);
        assert paths[n + 1] == paths[1..][n];
      }
      var n := |head|;
      forall a, b | 0 <= a < b < |out|
        ensures Precedes(paths, out[a], out[b])
      {
        if b < n {
          assert out[a] == head[a] && out[b] == head[b];
          assert ListedFrom(key, fields, 0, head[a]) && ListedFrom(key, fields, 0, head[b]);
        } else if a < n {
          assert out[a] == head[a];
          assert ListedFrom(key, fields, 0, head[a]);
          assert out[b] == rest[b - n] && rest[b - n] in rest;
        } else {
          assert out[a] == rest[a - n] && rest[a - n] in rest;
          assert out[b] == rest[b - n] && rest[b - n] in rest;
          assert Precedes(paths[1..], rest[a - n], rest[b - n]);
        }
      }
    }
  }

  // ---------------------------------------------------------------------
  // Counting

  lemma {:induction false} OccurrencesPositive(out: seq<PathEntry>, path: string, verb: string)
    ensures Occurrences(out, path, verb) > 0 <==> exists i :: 0 <= i < |out| && out[i].path == path && out[i].verb == verb
  {
    if |out| > 0 {
      OccurrencesPositive(out[1..], path, verb);
      if exists i :: 0 <= i < |out| && out[i].path == path && out[i].verb == verb {
        var i :| 0 <= i < |out| && out[i].path == path && out[i].verb == verb;
        if i > 0 {
          assert out[1..][i - 1] == out[i];
        }
      }
      if exists i :: 0 <= i < |out[1..]| && out[1..][i].path == path && out[1..][i].verb == verb {
        var i :| 0 <= i < |out[1..]| && out[1..][i].path == path && out[1..][i].verb == verb;
        assert out[i + 1] == out[1..][i];
      }
    }
  }

  lemma {:induction false} OccurrencesAtMostOne(out: seq<PathEntry>, path: string, verb: string)
    requires forall a, b :: 0 <= a < b < |out| ==> (out[a].path, out[a].verb) != (out[b].path, out[b].verb)
    ensures Occurrences(out, path, verb) <= 1
  {
    if |out| > 0 {
      assert forall a, b :: 0 <= a < b < |out[1..]| ==> (out[1..][a].path, out[1..][a].verb) != (out[1..][b].path, out[1..][b].verb) by {
        forall a, b | 0 <= a < b < |out[1..]|
          ensures (out[1..][a].path, out[1..][a].verb) != (out[1..][b].path, out[1..][b].verb)
        {
          assert out[1..][a] == out[a + 1] && out[1..][b] == out[b + 1];
        }
      }
      OccurrencesAtMostOne(out[1..], path, verb);
      if out[0].path == path && out[0].verb == verb {
        OccurrencesPositive(out[1..], path, verb);
        if Occurrences(out[1..], path, verb) > 0 {
          assert false;
        }
      }
    }
  }

  lemma {:induction false} EndpointsOf(out: seq<PathEntry>)
    ensures forall x :: x in Endpoints(out) <==> exists i :: 0 <= i < |out| && (out[i].path, out[i].verb) == x
  {
    if |out| > 0 {
      EndpointsOf(out[1..]);
      forall x
        ensures x in Endpoints(out) <==> exists i :: 0 <= i < |out| && (out[i].path, out[i].verb) == x
      {
        if x in Endpoints(out[1..]) {
          var i :| 0 <= i < |out[1..]| && (out[1..][i].path, out[1..][i].verb) == x;
          assert out[i + 1] == out[1..][i];
        }
        if exists i :: 0 <= i < |out| && (out[i].path, out[i].verb) == x {
          var i :| 0 <= i < |out| && (out[i].path, out[i].verb) == x;
          if i > 0 {
            assert out[1..][i - 1] == out[i];
          }
        }
      }
    }
  }

  lemma {:induction false} EndpointsCount(out: seq<PathEntry>)
    requires forall a, b :: 0 <= a < b < |out| ==> (out[a].path, out[a].verb) != (out[b].path, out[b].verb)
    ensures |Endpoints(out)| == |out|
  {
    if |out| > 0 {
      assert forall a, b :: 0 <= a < b < |out[1..]| ==> (out[1..][a].path, out[1..][a].verb) != (out[1..][b].path, out[1..][b].verb) by {
        forall a, b | 0 <= a < b < |out[1..]|
          ensures (out[1..][a].path, out[1..][a].verb) != (out[1..][b].path, out[1..][b].verb)
        {
          assert out[1..][a] == out[a + 1] && out[1..][b] == out[b + 1];
        }
      }
      EndpointsCount(out[1..]);
      EndpointsOf(out[1..]);
      if (out[0].path, out[0].verb) in Endpoints(out[1..]) {
        assert false;
      }
    }
  }

  // ---------------------------------------------------------------------
  // The index of a document

  /** An entry is listed exactly when it is one of the five methods and
      the document declares an operation there; its path is the key
      unchanged and its summary and operationId are the operation's, or
      `''` when the operation has none. Other keys such as `head`,
      `options` or `parameters` are never listed. */
  lemma ListedEntries(spec: Option<Document>, out: seq<PathEntry>)
    requires PathsFromSpec(spec) == Normal(out)
    ensures forall e :: e in out <==>
      && e.verb in Methods
      && exists op :: Declares(spec, e.path, e.verb, op)
           && e.summary == op.summary.GetOr("")
           && e.operationId == op.operationId.GetOr("")
  {
    if spec.Some? && spec.value.paths.Some? {
      EntriesOfListed(spec.value.paths.value, out);
    }
  }

  /** The index follows the document's order of paths and, within a path,
      the order get, post, put, delete, patch. */
  lemma ListedInOrder(spec: Option<Document>, out: seq<PathEntry>)
    requires PathsFromSpec(spec) == Normal(out)
    ensures InIndexOrder(PathsOf(spec), out)
  {
    if spec.Some? && spec.value.paths.Some? {
      EntriesOfOrdered(spec.value.paths.value, out);
    }
  }

  /** No `(path, method)` pair is listed twice. */
  lemma ListedDistinct(spec: Option<Document>, out: seq<PathEntry>)
    requires PathsFromSpec(spec) == Normal(out)
    ensures forall a, b :: 0 <= a < b < |out| ==> (out[a].path, out[a].verb) != (out[b].path, out[b].verb)
  {
    ListedInOrder(spec, out);
  }

  /** A `(path, method)` pair is listed once when the document declares an
      operation there for one of the five methods, and otherwise not at all. */
  lemma ListedOnce(spec: Option<Document>, out: seq<PathEntry>, path: string, verb: string)
    requires PathsFromSpec(spec) == Normal(out)
    ensures Occurrences(out, path, verb) == (if verb in Methods && HasOperation(spec, path, verb) then 1 else 0)
  {
    ListedEntries(spec, out);
    ListedDistinct(spec, out);
    OccurrencesAtMostOne(out, path, verb);
    OccurrencesPositive(out, path, verb);
    if verb in Methods && HasOperation(spec, path, verb) {
      var op :| Declares(spec, path, verb, op);
      var e := EntryFor(path, verb, op);
      assert e in out;
      var i :| 0 <= i < |out| && out[i] == e;
    }
  }

  lemma ListedIsDeclared(spec: Option<Document>, out: seq<PathEntry>, n: nat)
    requires PathsFromSpec(spec) == Normal(out)
    requires n < |out|
    ensures (out[n].path, out[n].verb) in DeclaredEndpoints(spec)
  {
    var paths := PathsOf(spec);
    var e := out[n];
    ListedEntries(spec, out);
    assert e in out;
    var op :| Declares(spec, e.path, e.verb, op);
    var i, j :| 0 <= i < |paths| && paths[i].key == e.path && paths[i].value.Item?
      && 0 <= j < |paths[i].value.fields| && paths[i].value.fields[j] == Property(e.verb, Some(op));
    var k := MethodRank(e.verb);
    assert HasOperation(spec, paths[i].key, Methods[k]);
  }

  lemma DeclaredIsListed(spec: Option<Document>, out: seq<PathEntry>, x: (string, string))
    requires PathsFromSpec(spec) == Normal(out)
    requires x in DeclaredEndpoints(spec)
    ensures exists n :: 0 <= n < |out| && (out[n].path, out[n].verb) == x
  {
    var paths := PathsOf(spec);
    var i, k :| 0 <= i < |paths| && 0 <= k < |Methods| && HasOperation(spec, paths[i].key, Methods[k])
      && x == (paths[i].key, Methods[k]);
    var op :| Declares(spec, paths[i].key, Methods[k], op);
    var e := EntryFor(paths[i].key, Methods[k], op);
    ListedEntries(spec, out);
    assert e in out;
    var n :| 0 <= n < |out| && out[n] == e;
  }

  /** The pairs named by the index are the declared endpoints. */
  lemma ListedEndpoints(spec: Option<Document>, out: seq<PathEntry>)
    requires PathsFromSpec(spec) == Normal(out)
    ensures Endpoints(out) == DeclaredEndpoints(spec)
  {
    EndpointsOf(out);
    forall x | x in Endpoints(out)
      ensures x in DeclaredEndpoints(spec)
    {
      var n :| 0 <= n < |out| && (out[n].path, out[n].verb) == x;
      ListedIsDeclared(spec, out, n);
    }
    forall x | x in DeclaredEndpoints(spec)
      ensures x in Endpoints(out)
    {
      DeclaredIsListed(spec, out, x);
    }
  }

  /** The index has one entry per declared operation among the five
      methods. */
  lemma ListedCount(spec: Option<Document>, out: seq<PathEntry>)
    requires PathsFromSpec(spec) == Normal(out)
    ensures |out| == |DeclaredEndpoints(spec)|
  {
    ListedDistinct(spec, out);
    EndpointsCount(out);
    ListedEndpoints(spec, out);
  }

  /** Without `null` path items, a document that declares nothing under the
      five methods has an empty index; in particular a missing document or
      a missing `paths` does. */
  lemma NothingDeclaredNothingListed(spec: Option<Document>)
    requires !HasNullPathItem(spec)
    requires forall path, verb :: verb in Methods ==> !HasOperation(spec, path, verb)
    ensures PathsFromSpec(spec) == Normal([])
  {
    var out := PathsFromSpec(spec).value;
    ListedEntries(spec, out);
    if |out| > 0 {
      assert out[0] in out;
      assert HasOperation(spec, out[0].path, out[0].verb);
    }
  }

  // ---------------------------------------------------------------------
  // The lookup

  /** The five listed method names are already lower case. */
  lemma MethodIsLowerCase(verb: string)
    requires verb in Methods
    ensures ToLowerCase(verb) == verb
  {
    LowerCaseOfLower(verb);
  }

  /** Method names that differ only in letter case look up the same
      operation. */
  lemma DetailsIgnoreCase(spec: Option<Document>, path: string, v1: string, v2: string)
    requires EqualsIgnoringCase(v1, v2)
    ensures EndpointDetails(spec, path, v1) == EndpointDetails(spec, path, v2)
  {
    SameLowerCase(v1, v2);
  }

  /** Every listed entry is found by the lookup, under its own method name
      in any letter case, and carries that operation's summary and
      operationId (or `''`). */
  lemma ListedEntriesResolve(spec: Option<Document>, out: seq<PathEntry>, e: PathEntry, verb: string)
    requires PathsFromSpec(spec) == Normal(out)
    requires e in out
    requires EqualsIgnoringCase(verb, e.verb)
    ensures EndpointDetails(spec, e.path, verb).Some?
    ensures e.summary == EndpointDetails(spec, e.path, verb).value.summary.GetOr("")
    ensures e.operationId == EndpointDetails(spec, e.path, verb).value.operationId.GetOr("")
  {
    ListedEntries(spec, out);
    var op :| Declares(spec, e.path, e.verb, op)
      && e.summary == op.summary.GetOr("") && e.operationId == op.operationId.GetOr("");
    SameLowerCase(verb, e.verb);
    MethodIsLowerCase(e.verb);
    assert EndpointDetails(spec, e.path, e.verb) == Some(op);
  }
}
