/**
 * The helpers of `pkg/utils`: the retry test for HTTP status codes, the
 * package identifier `name@version`, order-preserving removal of duplicate
 * strings, merging library records that share an identifier, and overriding
 * one string map with another in place.
 */
module Utils {
  import opened Wrappers
  import opened Types

  const STATUS_TOO_MANY_REQUESTS: int := 429
  const STATUS_NOT_IMPLEMENTED: int := 501

  /** `IsRetryableError`: too many requests, no status at all, or a server error other than "not implemented". */
  predicate IsRetryableError(statusCode: int)
  {
    if statusCode == STATUS_TOO_MANY_REQUESTS then true
    else if statusCode == 0 || (statusCode >= 500 && statusCode != STATUS_NOT_IMPLEMENTED) then true
    else false
  }

  /** Retrying by status class: among client errors only 429, among server errors all but 501. */
  lemma RetryableByClass(statusCode: int)
    ensures 100 <= statusCode < 400 ==> !IsRetryableError(statusCode)
    ensures 400 <= statusCode < 500 ==> (IsRetryableError(statusCode) <==> statusCode == STATUS_TOO_MANY_REQUESTS)
    ensures 500 <= statusCode ==> (IsRetryableError(statusCode) <==> statusCode != STATUS_NOT_IMPLEMENTED)
    ensures statusCode < 100 ==> (IsRetryableError(statusCode) <==> statusCode == 0)
  {
  }

  /** `PackageID`: the name, an `@`, and the version. */
  function PackageId(name: string, version: string): (id: string)
    ensures |id| == |name| + 1 + |version|
    ensures id[..|name|] == name && id[|name|] == '@' && id[|name| + 1..] == version
  {
    name + "@" + version
  }

  /** Names without an `@` are recovered from their identifier: two identifiers agree only for equal names and versions. */
  lemma PackageIdInjective(n1: string, v1: string, n2: string, v2: string)
    requires '@' !in n1 && '@' !in n2
    ensures PackageId(n1, v1) == PackageId(n2, v2) <==> n1 == n2 && v1 == v2
  {
    if PackageId(n1, v1) == PackageId(n2, v2) {
      var id := PackageId(n1, v1);
      assert forall i :: 0 <= i < |n1| ==> id[i] == n1[i];
      assert forall i :: 0 <= i < |n2| ==> id[i] == n2[i];
      assert |n1| == |n2|;
      assert n1 == id[..|n1|] == n2;
    }
  }

  // ---------------------------------------------------------------------
  // UniqueStrings

  /** The position of the first occurrence of `x` in `s`. */
  function FirstIndex<T(==)>(s: seq<T>, x: T): (k: nat)
    requires x in s
    ensures k < |s| && s[k] == x
    ensures forall j :: 0 <= j < k ==> s[j] != x
  {
    FirstIndexFrom(s, x, 0)
  }

  /** The first occurrence of `x` in `s`, which does not occur before position `from`. */
  function FirstIndexFrom<T(==)>(s: seq<T>, x: T, from: nat): (k: nat)
    requires from <= |s| && x in s
    requires forall j :: 0 <= j < from ==> s[j] != x
    ensures from <= k < |s| && s[k] == x
    ensures forall j :: 0 <= j < k ==> s[j] != x
    decreases |s| - from
  {
    if s[from] == x then from else FirstIndexFrom(s, x, from + 1)
  }

  /** The first occurrence of `x` lies in every prefix that contains `x`. */
  lemma FirstIndexPrefix<T>(s: seq<T>, x: T, m: nat)
    requires m <= |s| && x in s[..m]
    ensures FirstIndex(s, x) == FirstIndex(s[..m], x)
  {
  }

  /** The strings of `ss` without repetitions, each kept where it first occurs. */
  function Dedup(ss: seq<string>): seq<string>
  {
    if ss == [] then []
    else
      var seen := Dedup(ss[..|ss| - 1]);
      var s := ss[|ss| - 1];
      if s in seen then seen else seen + [s]
  }

  /** Deduplication keeps exactly the strings of the input. */
  lemma {:induction false} DedupSameElements(ss: seq<string>)
    ensures forall x :: x in Dedup(ss) <==> x in ss
    decreases |ss|
  {
    if ss != [] {
      var init := ss[..|ss| - 1];
      DedupSameElements(init);
      assert ss == init + [ss[|ss| - 1]];
    }
  }

  /** The result of deduplication has no repeated string. */
  lemma {:induction false} DedupNoDuplicates(ss: seq<string>)
    ensures forall i, j :: 0 <= i < j < |Dedup(ss)| ==> Dedup(ss)[i] != Dedup(ss)[j]
    decreases |ss|
  {
    if ss != [] {
      DedupNoDuplicates(ss[..|ss| - 1]);
    }
  }

  /** The result lists the strings in the order of their first occurrence in the input. */
  lemma {:induction false} DedupFirstOccurrenceOrder(ss: seq<string>)
    ensures forall x :: x in Dedup(ss) ==> x in ss
    ensures forall i, j :: 0 <= i < j < |Dedup(ss)| ==> FirstIndex(ss, Dedup(ss)[i]) < FirstIndex(ss, Dedup(ss)[j])
    decreases |ss|
  {
    DedupSameElements(ss);
    if ss != [] {
      var n := |ss| - 1;
      var init, s := ss[..n], ss[n];
      var d, r := Dedup(init), Dedup(ss);
      DedupFirstOccurrenceOrder(init);
      DedupSameElements(init);
      assert r == if s in d then d else d + [s];
      forall i, j | 0 <= i < j < |r|
        ensures FirstIndex(ss, r[i]) < FirstIndex(ss, r[j])
      {
        assert r[i] == d[i];
        FirstIndexPrefix(ss, r[i], n);
        if j < |d| {
          assert r[j] == d[j];
          FirstIndexPrefix(ss, r[j], n);
        } else {
          assert r[j] == s && s !in init;
          assert forall k :: 0 <= k < n ==> ss[k] == init[k];
        }
      }
    }
  }

  /** A list without repetitions is its own deduplication. */
  lemma {:induction false} DedupDistinct(ss: seq<string>)
    requires forall i, j :: 0 <= i < j < |ss| ==> ss[i] != ss[j]
    ensures Dedup(ss) == ss
    decreases |ss|
  {
    if ss != [] {
      var init := ss[..|ss| - 1];
      DedupDistinct(init);
      DedupSameElements(init);
      assert ss[|ss| - 1] !in init;
      assert ss == init + [ss[|ss| - 1]];
    }
  }

  /** Deduplicating twice is deduplicating once. */
  lemma DedupIdempotent(ss: seq<string>)
    ensures Dedup(Dedup(ss)) == Dedup(ss)
  {
    DedupNoDuplicates(ss);
    DedupDistinct(Dedup(ss));
  }

  /** `UniqueStrings`: keep each string the first time it is seen. */
  method UniqueStrings(ss: seq<string>) returns (results: seq<string>)
    ensures results == Dedup(ss)
  {
    results := [];
    var uniq: set<string> := {};
    for i := 0 to |ss|
      invariant results == Dedup(ss[..i])
      invariant forall x :: x in uniq <==> x in results
    {
      var s := ss[i];
      assert ss[..i + 1][..i] == ss[..i];
      if s in uniq {
        continue;
      }
      results := results + [s];
      uniq := uniq + {s};
    }
    assert ss[..|ss|] == ss;
  }

  // ---------------------------------------------------------------------
  // UniqueLibraries

  /** The identifier under which `UniqueLibraries` merges records. */
  function Key(l: Library): string
  {
    PackageId(l.name, l.version)
  }

  /** The identifiers of `libs`, position by position. */
  function Keys(libs: seq<Library>): (ks: seq<string>)
    ensures |ks| == |libs| && forall i :: 0 <= i < |libs| ==> ks[i] == Key(libs[i])
  {
    seq(|libs|, i requires 0 <= i < |libs| => Key(libs[i]))
  }

  /** One step of the loop of `UniqueLibraries`: keep the first record of an identifier, and append later locations to it. */
  function Absorb(unique: map<string, Library>, lib: Library): (m: map<string, Library>)
    ensures m.Keys == unique.Keys + {Key(lib)}
    ensures Key(lib) !in unique ==> m[Key(lib)] == lib
    ensures Key(lib) in unique ==>
              m[Key(lib)] == unique[Key(lib)].(locations := unique[Key(lib)].locations + lib.locations)
    ensures forall id :: id in unique && id != Key(lib) ==> m[id] == unique[id]
  {
    var id := Key(lib);
    if id !in unique then unique[id := lib]
    else if |lib.locations| > 0 then
      var l := unique[id];
      unique[id := l.(locations := l.locations + lib.locations)]
    else unique
  }

  /** The map `UniqueLibraries` builds from `libs`. */
  function AbsorbAll(libs: seq<Library>): map<string, Library>
  {
    if libs == [] then map[] else Absorb(AbsorbAll(libs[..|libs| - 1]), libs[|libs| - 1])
  }

  /** The locations of all records of `libs` with identifier `id`, in order. */
  function LocationsOf(libs: seq<Library>, id: string): seq<Location>
  {
    if libs == [] then []
    else LocationsOf(libs[..|libs| - 1], id) + (if Key(libs[|libs| - 1]) == id then libs[|libs| - 1].locations else [])
  }

  lemma {:induction false} LocationsOfAbsent(libs: seq<Library>, id: string)
    requires id !in Keys(libs)
    ensures LocationsOf(libs, id) == []
    decreases |libs|
  {
    if libs != [] {
      var init := libs[..|libs| - 1];
      assert Keys(init) == Keys(libs)[..|libs| - 1];
      LocationsOfAbsent(init, id);
    }
  }

  /**
   * The entry for `id` in the map built from `libs` exists exactly when some
   * record has identifier `id`, and is then the first such record with the
   * locations of all such records, in input order.
   */
  predicate EntryAgrees(libs: seq<Library>, id: string)
  {
    && (id in AbsorbAll(libs) <==> id in Keys(libs))
    && (id in AbsorbAll(libs) ==>
          AbsorbAll(libs)[id] == libs[FirstIndex(Keys(libs), id)].(locations := LocationsOf(libs, id)))
  }

  /** Absorbing one more record keeps the entry for `id` as promised. */
  lemma AbsorbEntry(libs: seq<Library>, id: string)
    requires libs != [] && EntryAgrees(libs[..|libs| - 1], id)
    ensures EntryAgrees(libs, id)
  {
    var n := |libs| - 1;
    var init, lib := libs[..n], libs[n];
    var ks := Keys(libs);
    assert Keys(init) == ks[..n];
    assert ks == Keys(init) + [Key(lib)];
    assert AbsorbAll(libs) == Absorb(AbsorbAll(init), lib);
    assert LocationsOf(libs, id) == LocationsOf(init, id) + (if Key(lib) == id then lib.locations else []);
    if id in Keys(init) {
      FirstIndexPrefix(ks, id, n);
      assert libs[FirstIndex(ks, id)] == init[FirstIndex(Keys(init), id)];
    } else if Key(lib) == id {
      LocationsOfAbsent(init, id);
      assert FirstIndex(ks, id) == n;
    }
  }

  /**
   * One entry per identifier of the input, and no other; the entry for an
   * identifier is its first record, with the locations of all its records
   * in input order.
   */
  lemma {:induction false} AbsorbAllEntries(libs: seq<Library>)
    ensures forall id :: EntryAgrees(libs, id)
    decreases |libs|
  {
    if libs != [] {
      AbsorbAllEntries(libs[..|libs| - 1]);
      forall id
        ensures EntryAgrees(libs, id)
      {
        AbsorbEntry(libs, id);
      }
    }
  }

  /**
   * `UniqueLibraries`: nothing (nil) for no input; otherwise the records
   * merged by identifier, as the map the Go code builds before listing and
   * sorting its values.
   */
  method UniqueLibraries(libs: seq<Library>) returns (r: Option<map<string, Library>>)
    ensures libs == [] <==> r.None?
    ensures r.Some? ==> r.value == AbsorbAll(libs)
  {
    if |libs| == 0 {
      return None;
    }
    var unique: map<string, Library> := map[];
    for i := 0 to |libs|
      invariant unique == AbsorbAll(libs[..i])
    {
      var lib := libs[i];
      assert libs[..i + 1][..i] == libs[..i];
      var id := PackageId(lib.name, lib.version);
      if id !in unique {
        unique := unique[id := lib];
      } else if |lib.locations| > 0 {
        var l := unique[id];
        l := l.(locations := l.locations + lib.locations);
        unique := unique[id := l];
      }
    }
    assert libs[..|libs|] == libs;
    return Some(unique);
  }

  // ---------------------------------------------------------------------
  // MergeMaps

  /** A Go `map[string]string`, which callers share by reference; `null` is the nil map. */
  class StringMap {
    var entries: map<string, string>

    constructor (entries: map<string, string>)
      ensures this.entries == entries
    {
      this.entries := entries;
    }
  }

  /** `parent` overridden by `child`. */
  function Override(parent: map<string, string>, child: map<string, string>): (m: map<string, string>)
    ensures forall k :: k in m <==> k in parent || k in child
    ensures forall k :: k in child ==> m[k] == child[k]
    ensures forall k :: k in parent && k !in child ==> m[k] == parent[k]
  {
    parent + child
  }

  /** `MergeMaps`: a nil parent yields the child itself; otherwise the child's entries are written into the parent. */
  method MergeMaps(parent: StringMap?, child: StringMap?) returns (r: StringMap?)
    modifies parent
    ensures parent == null ==> r == child
    ensures parent != null ==> r == parent
    ensures parent != null ==> parent.entries == Override(old(parent.entries), if child == null then map[] else old(child.entries))
  {
    if parent == null {
      return child;
    }
    var todo: map<string, string> := if child == null then map[] else child.entries;
    var keys := todo.Keys;
    while keys != {}
      invariant keys <= todo.Keys
      invariant parent.entries == old(parent.entries) + map k | k in todo && k !in keys :: todo[k]
      decreases keys
    {
      var k :| k in keys;
      parent.entries := parent.entries[k := todo[k]];
      keys := keys - {k};
    }
    assert (map k | k in todo && k !in keys :: todo[k]) == todo;
    return parent;
  }
}
