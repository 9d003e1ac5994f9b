/** The spray index built by processSprayFiles: every plain file of the
    converted-output directory whose name is `<steamID>_<sprayID>` adds its
    spray ID to the list kept under its Steam ID. */
module Sprays {
  import opened GoStrings

  datatype Option<T> = None | Some(value: T)

  /** One entry of the directory listing, as Readdir returns it. */
  datatype DirEntry = DirEntry(name: string, isDir: bool)

  /** The two halves of a file name around its one underscore. */
  datatype Spray = Spray(steamID: string, sprayID: string)

  /** Steam ID to spray IDs, in listing order. */
  type SprayIndex = map<string, seq<string>>

  const Delimiter: char := '_'

  /** What one listing entry contributes: nothing for a directory or for a
      name that does not split into exactly two pieces, otherwise the two pieces. */
  function ParseEntry(e: DirEntry): (r: Option<Spray>)
    ensures r.Some? <==> !e.isDir && CountChar(e.name, Delimiter) == 1
    ensures r.Some? ==> e.name == r.value.steamID + [Delimiter] + r.value.sprayID
    ensures r.Some? ==> Delimiter !in r.value.steamID && Delimiter !in r.value.sprayID
  {
    if e.isDir then None
    else
      var parts := Split(e.name, Delimiter);
      if |parts| != 2 then None
      else
        TwoPieces(e.name, Delimiter);
        Some(Spray(parts[0], parts[1]))
  }

  /** Any underscore-free halves, empty ones included, come back from a file
      named by joining them with one underscore. */
  lemma ParseJoinedName(steamID: string, sprayID: string)
    requires Delimiter !in steamID && Delimiter !in sprayID
    ensures ParseEntry(DirEntry(steamID + [Delimiter] + sprayID, false)) == Some(Spray(steamID, sprayID))
  {
    SplitAtFirst(steamID, Delimiter, sprayID);
    SplitWithoutSep(sprayID, Delimiter);
  }

  /** A name without an underscore is skipped, not reported as an error. */
  lemma NameWithoutDelimiter(e: DirEntry)
    requires Delimiter !in e.name
    ensures ParseEntry(e) == None
  {
    SplitWithoutSep(e.name, Delimiter);
  }

  /** The spray IDs the listing files under `steamID`, in listing order,
      duplicates kept. */
  function ValuesFor(files: seq<DirEntry>, steamID: string): seq<string>
    decreases |files|
  {
    if files == [] then []
    else ValuesFor(files[..|files| - 1], steamID) + Contribution(files[|files| - 1], steamID)
  }

  function Contribution(e: DirEntry, steamID: string): seq<string>
  {
    match ParseEntry(e)
    case Some(s) => if s.steamID == steamID then [s.sprayID] else []
    case None => []
  }

  /** The Steam IDs that some entry of the listing contributes to. */
  function SteamIDs(files: seq<DirEntry>): set<string>
    decreases |files|
  {
    if files == [] then {}
    else
      SteamIDs(files[..|files| - 1]) +
      (match ParseEntry(files[|files| - 1]) case Some(s) => {s.steamID} case None => {})
  }

  /** The index the listing should produce, stated key by key. */
  function Index(files: seq<DirEntry>): SprayIndex
  {
    map k | k in SteamIDs(files) :: ValuesFor(files, k)
  }

  /** The number of entries that contribute a spray. */
  function CountContributing(files: seq<DirEntry>): nat
    decreases |files|
  {
    if files == [] then 0
    else CountContributing(files[..|files| - 1]) + (if ParseEntry(files[|files| - 1]).Some? then 1 else 0)
  }

  /** The list kept under `k`, or the empty list when `k` has none yet. */
  function Lookup(m: SprayIndex, k: string): seq<string>
  {
    if k in m then m[k] else []
  }

  /** The total number of spray IDs across all keys of an index. */
  ghost function TotalValues(m: SprayIndex): nat
  {
    SumSizes(m, m.Keys)
  }

  ghost function SumSizes(m: SprayIndex, keys: set<string>): nat
    requires keys <= m.Keys
    decreases keys
  {
    if keys == {} then 0
    else
      var k :| k in keys;
      |m[k]| + SumSizes(m, keys - {k})
  }

  /** processSprayFiles, from the listing on: for each entry in listing order,
      skip directories and names that do not split into two pieces on the
      underscore, and append the second piece to the list of the first. */
  method ProcessSprayFiles(files: seq<DirEntry>) returns (spraysBySteamID: SprayIndex)
    ensures spraysBySteamID == Index(files)
    ensures forall k :: k in spraysBySteamID <==> ValuesFor(files, k) != []
    ensures forall k :: k in spraysBySteamID ==> spraysBySteamID[k] == ValuesFor(files, k)
    ensures TotalValues(spraysBySteamID) == CountContributing(files)
  {
    spraysBySteamID := map[];
    for i := 0 to |files|
      invariant spraysBySteamID == Index(files[..i])
    {
      var file := files[i];
      assert files[..i + 1] == files[..i] + [file];
      IndexStep(files[..i], file);
      if file.isDir {
        continue;
      }
      var parts := Split(file.name, Delimiter);
      if |parts| != 2 {
        continue;
      }
      var steamID, sprayID := parts[0], parts[1];
      var sprays: seq<string>;
      if steamID in spraysBySteamID {
        sprays := spraysBySteamID[steamID];
      } else {
        sprays := [];
      }
      sprays := sprays + [sprayID];
      spraysBySteamID := spraysBySteamID[steamID := sprays];
    }
    assert files[..|files|] == files;
    IndexKeys(files);
    IndexTotal(files);
  }

  /** A Steam ID is a key of the index exactly when some entry contributes to it. */
  lemma {:induction false} KeysAreContributed(files: seq<DirEntry>, k: string)
    ensures k in SteamIDs(files) <==> ValuesFor(files, k) != []
    decreases |files|
  {
    if files != [] {
      KeysAreContributed(files[..|files| - 1], k);
    }
  }

  /** A spray ID is listed under a Steam ID exactly when some entry of the
      listing parses to that pair. */
  lemma {:induction false} ValuesForMembers(files: seq<DirEntry>, k: string, v: string)
    ensures v in ValuesFor(files, k) <==>
      exists i :: 0 <= i < |files| && ParseEntry(files[i]) == Some(Spray(k, v))
    decreases |files|
  {
    if files != [] {
      var init, last := files[..|files| - 1], files[|files| - 1];
      ValuesForMembers(init, k, v);
      if v in ValuesFor(files, k) && v !in ValuesFor(init, k) {
        assert ParseEntry(files[|files| - 1]) == Some(Spray(k, v));
      }
      if exists i :: 0 <= i < |files| && ParseEntry(files[i]) == Some(Spray(k, v)) {
        var i :| 0 <= i < |files| && ParseEntry(files[i]) == Some(Spray(k, v));
        if i < |init| {
          assert init[i] == files[i];
        }
      }
    }
  }

  /** Every spray in the index comes from a plain file of the listing named
      `<steamID>_<sprayID>`, and every such file with one underscore puts its
      spray under its Steam ID. */
  lemma IndexFromEntries(files: seq<DirEntry>)
    ensures forall k, v :: k in Index(files) && v in Index(files)[k] ==>
      exists i :: 0 <= i < |files| && !files[i].isDir && files[i].name == k + [Delimiter] + v
    ensures forall i :: 0 <= i < |files| && ParseEntry(files[i]).Some? ==>
      var s := ParseEntry(files[i]).value;
      s.steamID in Index(files) && s.sprayID in Index(files)[s.steamID]
  {
    forall k, v | k in Index(files) && v in Index(files)[k]
      ensures exists i :: 0 <= i < |files| && !files[i].isDir && files[i].name == k + [Delimiter] + v
    {
      ValuesForMembers(files, k, v);
    }
    forall i | 0 <= i < |files| && ParseEntry(files[i]).Some?
      ensures ParseEntry(files[i]).value.steamID in Index(files)
      ensures ParseEntry(files[i]).value.sprayID in Index(files)[ParseEntry(files[i]).value.steamID]
    {
      var s := ParseEntry(files[i]).value;
      ValuesForMembers(files, s.steamID, s.sprayID);
      KeysAreContributed(files, s.steamID);
    }
  }

  /** Every key maps to a non-empty list, and keys are exactly the Steam IDs
      some entry contributes to. */
  lemma IndexKeys(files: seq<DirEntry>)
    ensures forall k :: k in Index(files) <==> ValuesFor(files, k) != []
    ensures forall k :: k in Index(files) ==> Index(files)[k] != []
  {
    forall k ensures k in SteamIDs(files) <==> ValuesFor(files, k) != [] {
      KeysAreContributed(files, k);
    }
  }

  /** Processing one more entry appends its spray ID to exactly one key's list
      (creating the list if needed) or changes nothing; every other list is
      unchanged. */
  lemma IndexStep(files: seq<DirEntry>, e: DirEntry)
    ensures ParseEntry(e).None? ==> Index(files + [e]) == Index(files)
    ensures ParseEntry(e).Some? ==>
      var s := ParseEntry(e).value;
      Index(files + [e]) == Index(files)[s.steamID := Lookup(Index(files), s.steamID) + [s.sprayID]]
  {
    var files' := files + [e];
    assert files'[..|files'| - 1] == files;
    match ParseEntry(e)
    case None =>
      assert SteamIDs(files') == SteamIDs(files);
      forall k ensures ValuesFor(files', k) == ValuesFor(files, k) {
        assert Contribution(e, k) == [];
      }
    case Some(s) =>
      var lhs, rhs := Index(files'), Index(files)[s.steamID := Lookup(Index(files), s.steamID) + [s.sprayID]];
      assert SteamIDs(files') == SteamIDs(files) + {s.steamID};
      assert lhs.Keys == rhs.Keys;
      forall k | k in lhs ensures lhs[k] == rhs[k] {
        assert ValuesFor(files', k) == ValuesFor(files, k) + Contribution(e, k);
        if k == s.steamID {
          KeysAreContributed(files, k);
        }
      }
  }

  lemma {:induction false} ValuesForConcat(a: seq<DirEntry>, b: seq<DirEntry>, k: string)
    ensures ValuesFor(a + b, k) == ValuesFor(a, k) + ValuesFor(b, k)
    decreases |b|
  {
    if b == [] {
      assert a + b == a;
    } else {
      var init := b[..|b| - 1];
      ValuesForConcat(a, init, k);
      assert (a + b)[..|a + b| - 1] == a + init;
    }
  }

  lemma {:induction false} SteamIDsConcat(a: seq<DirEntry>, b: seq<DirEntry>)
    ensures SteamIDs(a + b) == SteamIDs(a) + SteamIDs(b)
    decreases |b|
  {
    if b == [] {
      assert a + b == a;
    } else {
      var init := b[..|b| - 1];
      SteamIDsConcat(a, init);
      assert (a + b)[..|a + b| - 1] == a + init;
    }
  }

  /** An entry that contributes nothing (a directory, or a name with zero or
      several underscores) can be dropped from anywhere in the listing without
      changing the index. */
  lemma IgnoredEntry(a: seq<DirEntry>, e: DirEntry, b: seq<DirEntry>)
    requires ParseEntry(e).None?
    ensures Index(a + [e] + b) == Index(a + b)
  {
    assert SteamIDs([e]) == {} by { assert [e][..0] == []; }
    SteamIDsConcat(a, [e]);
    SteamIDsConcat(a + [e], b);
    SteamIDsConcat(a, b);
    forall k ensures ValuesFor(a + [e] + b, k) == ValuesFor(a + b, k) {
      assert ValuesFor([e], k) == [] by { assert [e][..0] == []; }
      ValuesForConcat(a, [e], k);
      ValuesForConcat(a + [e], b, k);
      ValuesForConcat(a, b, k);
    }
  }

  /** Directories never contribute, whatever their name. */
  lemma DirectoryIgnored(a: seq<DirEntry>, name: string, b: seq<DirEntry>)
    ensures Index(a + [DirEntry(name, true)] + b) == Index(a + b)
  {
    IgnoredEntry(a, DirEntry(name, true), b);
  }

  /** SumSizes does not depend on which key it takes first. */
  lemma {:induction false} SumSizesRemove(m: SprayIndex, keys: set<string>, k: string)
    requires keys <= m.Keys && k in keys
    ensures SumSizes(m, keys) == |m[k]| + SumSizes(m, keys - {k})
    decreases keys
  {
    var j :| j in keys && SumSizes(m, keys) == |m[j]| + SumSizes(m, keys - {j});
    if j != k {
      SumSizesRemove(m, keys - {j}, k);
      SumSizesRemove(m, keys - {k}, j);
      assert keys - {j} - {k} == keys - {k} - {j};
    }
  }

  /** SumSizes reads only the lists under the keys it is given. */
  lemma {:induction false} SumSizesAgree(m1: SprayIndex, m2: SprayIndex, keys: set<string>)
    requires keys <= m1.Keys && keys <= m2.Keys
    requires forall k :: k in keys ==> m1[k] == m2[k]
    ensures SumSizes(m1, keys) == SumSizes(m2, keys)
    decreases keys
  {
    if keys != {} {
      var j :| j in keys && SumSizes(m1, keys) == |m1[j]| + SumSizes(m1, keys - {j});
      SumSizesAgree(m1, m2, keys - {j});
      SumSizesRemove(m2, keys, j);
    }
  }

  /** Appending one value to one key's list raises the total by one. */
  lemma TotalValuesAppend(m: SprayIndex, k: string, v: string)
    ensures TotalValues(m[k := Lookup(m, k) + [v]]) == TotalValues(m) + 1
  {
    var m' := m[k := Lookup(m, k) + [v]];
    SumSizesRemove(m', m'.Keys, k);
    SumSizesAgree(m', m, m.Keys - {k});
    assert m'.Keys - {k} == m.Keys - {k};
    if k in m {
      SumSizesRemove(m, m.Keys, k);
    } else {
      assert m.Keys - {k} == m.Keys;
    }
  }

  /** No spray is lost or duplicated: the index holds exactly as many spray
      IDs as the listing has contributing entries. */
  lemma {:induction false} IndexTotal(files: seq<DirEntry>)
    ensures TotalValues(Index(files)) == CountContributing(files)
    decreases |files|
  {
    if files == [] {
      assert Index(files) == map[];
    } else {
      var init, last := files[..|files| - 1], files[|files| - 1];
      IndexTotal(init);
      assert files == init + [last];
      IndexStep(init, last);
      if ParseEntry(last).Some? {
        var s := ParseEntry(last).value;
        TotalValuesAppend(Index(init), s.steamID, s.sprayID);
      }
    }
  }

  /** Two sprays of one owner, then one of another owner, then an entry that
      contributes nothing: the first owner's list keeps both, in order. */
  lemma GroupingSample(e1: DirEntry, e2: DirEntry, e3: DirEntry, e4: DirEntry,
                       owner1: string, owner2: string, spray1: string, spray2: string, spray3: string)
    requires owner1 != owner2
    requires ParseEntry(e1) == Some(Spray(owner1, spray1))
    requires ParseEntry(e2) == Some(Spray(owner1, spray2))
    requires ParseEntry(e3) == Some(Spray(owner2, spray3))
    requires ParseEntry(e4) == None
    ensures var index := Index([e1, e2, e3, e4]);
      && index.Keys == {owner1, owner2}
      && index[owner1] == [spray1, spray2]
      && index[owner2] == [spray3]
  {
    var m0: SprayIndex := map[];
    assert Index([]) == m0;
    IndexStep([], e1);
    assert [] + [e1] == [e1];
    IndexStep([e1], e2);
    assert [e1] + [e2] == [e1, e2];
    IndexStep([e1, e2], e3);
    assert [e1, e2] + [e3] == [e1, e2, e3];
    IndexStep([e1, e2, e3], e4);
    assert [e1, e2, e3] + [e4] == [e1, e2, e3, e4];
  }
}
