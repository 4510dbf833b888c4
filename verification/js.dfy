/** The few JavaScript notions the OpenAPI indexer leans on: truthiness,
    plain objects read as ordered key/value lists, exceptions, and the two
    string methods `toLowerCase` and `endsWith`. */
module Js {

  /** A JavaScript value read for its truthiness: `None` stands for a missing
      property or a falsy value (`undefined`, `null`, `false`, `0`, `''`). */
  datatype Option<+T> = None | Some(value: T) {

    /** `x || fallback` when `x` is known to be a `T` or falsy. */
    function GetOr(fallback: T): T {
      match this
      case Some(v) => v
      case None => fallback
    }
  }

  /** How an expression finished: with a value, or by throwing a `TypeError`
      (reading a property of `null`). */
  datatype Completion<+T> = Normal(value: T) | ThrowTypeError

  /** One own property of a plain object. */
  datatype Property<+V> = Property(key: string, value: V)

  predicate DistinctKeys<V>(props: seq<Property<V>>) {
    forall i, j :: 0 <= i < j < |props| ==> props[i].key != props[j].key
  }

  /** A plain object: its own enumerable properties in enumeration order.
      A key occurs at most once. */
  type Object<V> = props: seq<Property<V>> | DistinctKeys(props) witness []

  /** Property read `o[key]` for an own property: the first property with
      that key, if any. */
  function Get<V>(o: seq<Property<V>>, key: string): Option<V> {
    if |o| == 0 then None
    else if o[0].key == key then Some(o[0].value)
    else Get(o[1..], key)
  }

  /** A property read finds nothing exactly when no property has the key,
      and otherwise the value of a property with that key. */
  lemma {:induction false} GetFinds<V>(o: seq<Property<V>>, key: string)
    ensures Get(o, key).None? <==> forall j :: 0 <= j < |o| ==> o[j].key != key
    ensures Get(o, key).Some? ==> exists j :: 0 <= j < |o| && o[j].key == key && o[j].value == Get(o, key).value
  {
    if |o| > 0 && o[0].key != key {
      GetFinds(o[1..], key);
      if Get(o, key).Some? {
        var j :| 0 <= j < |o[1..]| && o[1..][j].key == key && o[1..][j].value == Get(o, key).value;
        assert o[j + 1] == o[1..][j];
      }
      forall j | 0 <= j < |o[1..]|
        ensures o[1..][j] == o[j + 1]
      {
      }
    }
  }

  /** Position of the first property with the given key (`|o|` when absent). */
  function IndexOf<V>(o: seq<Property<V>>, key: string): nat {
    if |o| == 0 then 0
    else if o[0].key == key then 0
    else 1 + IndexOf(o[1..], key)
  }

  /** `IndexOf` finds the first property with the key, and gives `|o|`
      exactly when there is none. */
  lemma {:induction false} IndexOfFinds<V>(o: seq<Property<V>>, key: string)
    ensures IndexOf(o, key) <= |o|
    ensures IndexOf(o, key) < |o| ==> o[IndexOf(o, key)].key == key
    ensures forall j :: 0 <= j < IndexOf(o, key) ==> o[j].key != key
  {
    if |o| > 0 && o[0].key != key {
      IndexOfFinds(o[1..], key);
      forall j | 0 <= j < IndexOf(o, key)
        ensures o[j].key != key
      {
        if j > 0 {
          assert o[j] == o[1..][j - 1];
        }
      }
    }
  }

  /** In an object, reading the key of the `j`-th property finds that
      property's value, and its position is `j`. */
  lemma {:induction false} GetProperty<V>(o: seq<Property<V>>, j: nat)
    requires DistinctKeys(o)
    requires j < |o|
    ensures Get(o, o[j].key) == Some(o[j].value)
    ensures IndexOf(o, o[j].key) == j
  {
    if j > 0 {
      assert o[0].key != o[j].key;
      assert o[1..][j - 1] == o[j];
      DistinctKeysTail(o);
      GetProperty(o[1..], j - 1);
    }
  }

  /** A suffix of an object is an object. */
  lemma DistinctKeysTail<V>(o: seq<Property<V>>)
    requires DistinctKeys(o)
    requires |o| > 0
    ensures DistinctKeys(o[1..])
  {
  }

  // ---------------------------------------------------------------------
  // Strings

  /** `s.endsWith(suffix)`, compared from the last character back. */
  predicate EndsWith(s: string, suffix: string)
    decreases |suffix|
  {
    && |suffix| <= |s|
    && (|suffix| == 0 || (s[|s| - 1] == suffix[|suffix| - 1] && EndsWith(s[..|s| - 1], suffix[..|suffix| - 1])))
  }

  /** `s` ends with `suffix` exactly when its last `|suffix|` characters
      are `suffix`. */
  lemma {:induction false} EndsWithSlice(s: string, suffix: string)
    ensures EndsWith(s, suffix) <==> |suffix| <= |s| && s[|s| - |suffix|..] == suffix
    decreases |suffix|
  {
    if 0 < |suffix| <= |s| {
      var s', t' := s[..|s| - 1], suffix[..|suffix| - 1];
      EndsWithSlice(s', t');
      assert s[|s| - |suffix|..] == s'[|s'| - |t'|..] + [s[|s| - 1]];
      assert suffix == t' + [suffix[|suffix| - 1]];
    }
  }

  predicate IsUpper(c: char) {
    'A' <= c <= 'Z'
  }

  function LowerChar(c: char): char {
    if IsUpper(c) then (c as int + 32) as char else c
  }

  /** `s.toLowerCase()`, for the ASCII letters. */
  function ToLowerCase(s: string): (r: string)
    ensures |r| == |s|
  {
    if |s| == 0 then "" else [LowerChar(s[0])] + ToLowerCase(s[1..])
  }

  /** Two characters that are the same up to ASCII letter case. */
  predicate SameLetter(x: char, y: char) {
    || x == y
    || (IsUpper(x) && y as int == x as int + 32)
    || (IsUpper(y) && x as int == y as int + 32)
  }

  /** Two strings that spell the same word up to ASCII letter case. */
  predicate EqualsIgnoringCase(a: string, b: string) {
    |a| == |b| && forall i :: 0 <= i < |a| ==> SameLetter(a[i], b[i])
  }

  /** Lower-casing identifies exactly the strings that differ only in
      letter case. */
  lemma SameLowerCase(a: string, b: string)
    ensures ToLowerCase(a) == ToLowerCase(b) <==> EqualsIgnoringCase(a, b)
  {
    if |a| == |b| {
      var la, lb := ToLowerCase(a), ToLowerCase(b);
      forall i | 0 <= i < |a|
        ensures la[i] == lb[i] <==> SameLetter(a[i], b[i])
      {
        LowerCaseAt(a, i);
        LowerCaseAt(b, i);
        LowerCharSame(a[i], b[i]);
      }
      if EqualsIgnoringCase(a, b) {
        assert la == lb;
      }
    }
  }

  /** Two characters lower-case alike exactly when they are the same
      letter. */
  lemma LowerCharSame(x: char, y: char)
    ensures LowerChar(x) == LowerChar(y) <==> SameLetter(x, y)
  {
    if IsUpper(x) {
      assert LowerChar(x) as int == x as int + 32;
    }
    if IsUpper(y) {
      assert LowerChar(y) as int == y as int + 32;
    }
  }

  /** Lower-casing works character by character. */
  lemma {:induction false} LowerCaseAt(s: string, i: nat)
    requires i < |s|
    ensures ToLowerCase(s)[i] == LowerChar(s[i])
  {
    if i > 0 {
      LowerCaseAt(s[1..], i - 1);
    }
  }

  /** A string without upper-case letters is its own lower case. */
  lemma {:induction false} LowerCaseOfLower(s: string)
    requires forall i :: 0 <= i < |s| ==> !IsUpper(s[i])
    ensures ToLowerCase(s) == s
  {
    if |s| > 0 {
      LowerCaseOfLower(s[1..]);
    }
  }
}
