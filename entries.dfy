/**
 * The webpack entry table: every entry path becomes a flat entry name (each
 * `/` replaced by `-`, since webpack's `[name]` cannot carry a directory
 * between the hash and the filename), mapped to the module `bundle/<path>`.
 */
module Entries {

  /** The entry points of the configuration, in declaration order. */
  const EntryPoints: seq<string> := [
    "admin/Job/index",
    "admin/Plugin/index",
    "admin/User/index",
    "ApiToken/index",
    "CsvUpload/new",
    "DocumentCloudImportJob/new",
    "DocumentCloudProject/index",
    "DocumentSet/index",
    "DocumentSet/show",
    "DocumentSet/show-progress",
    "DocumentSetUser/index",
    "FileImport/new",
    "PublicDocumentSet/index",
    "SharedDocumentSet/index",
    "Welcome/show"
  ]

  const BundlePrefix: string := "bundle/"

  /** `path.replace(/\//g, '-')`: every `/` becomes `-`, every other character stays. */
  function Flatten(path: string): (name: string)
    ensures |name| == |path|
    ensures '/' !in name
    ensures forall i :: 0 <= i < |path| ==> name[i] == if path[i] == '/' then '-' else path[i]
  {
    if path == [] then []
    else [if path[0] == '/' then '-' else path[0]] + Flatten(path[1..])
  }

  /** The `entryPointsMap` object after the `for…of` loop has visited `entries` in order. */
  function EntryPointsMap(entries: seq<string>): map<string, string>
  {
    if entries == [] then map[]
    else
      var last := entries[|entries| - 1];
      EntryPointsMap(entries[..|entries| - 1])[Flatten(last) := BundlePrefix + last]
  }

  /** The `for…of` loop that fills `entryPointsMap`. */
  method BuildEntryPointsMap(entries: seq<string>) returns (entryPointsMap: map<string, string>)
    ensures entryPointsMap == EntryPointsMap(entries)
  {
    entryPointsMap := map[];
    for i := 0 to |entries|
      invariant entryPointsMap == EntryPointsMap(entries[..i])
    {
      var entryPoint := entries[i];
      entryPointsMap := entryPointsMap[Flatten(entryPoint) := BundlePrefix + entryPoint];
      assert entries[..i + 1][..i] == entries[..i];
    }
    assert entries[..|entries|] == entries;
  }

  /**
   * Every key is the flattened form of some entry, has no `/`, and maps to
   * `bundle/` followed by that entry; an entry whose flattened name no later
   * entry shares keeps its own value (the later of two colliding entries wins).
   */
  lemma {:induction false} EntryPointsMapAt(entries: seq<string>, name: string)
    ensures name in EntryPointsMap(entries) ==>
      '/' !in name &&
      exists i :: 0 <= i < |entries| && Flatten(entries[i]) == name &&
                  EntryPointsMap(entries)[name] == BundlePrefix + entries[i]
    ensures forall i :: 0 <= i < |entries| && Flatten(entries[i]) == name ==> name in EntryPointsMap(entries)
  {
    if entries != [] {
      var n := |entries| - 1;
      var init := entries[..n];
      EntryPointsMapAt(init, name);
      if name in EntryPointsMap(entries) && Flatten(entries[n]) != name {
        var i :| 0 <= i < |init| && Flatten(init[i]) == name && EntryPointsMap(init)[name] == BundlePrefix + init[i];
        assert entries[i] == init[i];
      }
      forall i | 0 <= i < |entries| && Flatten(entries[i]) == name
        ensures name in EntryPointsMap(entries)
      {
        if i < n {
          assert init[i] == entries[i];
        }
      }
    }
  }

  lemma {:induction false} EntryPointsMapLastWins(entries: seq<string>, i: int)
    requires 0 <= i < |entries|
    requires forall j :: i < j < |entries| ==> Flatten(entries[j]) != Flatten(entries[i])
    ensures Flatten(entries[i]) in EntryPointsMap(entries)
    ensures EntryPointsMap(entries)[Flatten(entries[i])] == BundlePrefix + entries[i]
  {
    var n := |entries| - 1;
    if i < n {
      var init := entries[..n];
      assert init[i] == entries[i];
      EntryPointsMapLastWins(init, i);
    }
  }

  /** Distinct entries whose flattened names differ give one key each. */
  lemma {:induction false} EntryPointsMapSize(entries: seq<string>)
    requires forall i, j :: 0 <= i < j < |entries| ==> Flatten(entries[i]) != Flatten(entries[j])
    ensures |EntryPointsMap(entries)| == |entries|
  {
    if entries != [] {
      var n := |entries| - 1;
      var init := entries[..n];
      EntryPointsMapSize(init);
      EntryPointsMapAt(init, Flatten(entries[n]));
      assert Flatten(entries[n]) !in EntryPointsMap(init);
    }
  }

  /** Two paths that differ in a character other than `/` flatten differently. */
  lemma FlattenKeepsDifference(a: string, b: string, k: nat)
    requires k < |a| && k < |b| && a[k] != b[k] && a[k] != '/' && b[k] != '/'
    ensures Flatten(a) != Flatten(b)
  {
    assert Flatten(a)[k] != Flatten(b)[k];
  }

  /** The fifteen configured entry points flatten to fifteen distinct names. */
  lemma EntryPointsFlattenDistinct()
    ensures forall i, j :: 0 <= i < j < |EntryPoints| ==> Flatten(EntryPoints[i]) != Flatten(EntryPoints[j])
  {
    var e := EntryPoints;
    var lengths := [15, 18, 16, 14, 13, 26, 26, 17, 16, 25, 21, 14, 23, 23, 12];
    assert forall i :: 0 <= i < |e| ==> |e[i]| == lengths[i];
    forall i, j | 0 <= i < j < |e| ensures Flatten(e[i]) != Flatten(e[j]) {
      if lengths[i] == lengths[j] {
        // entries of equal length differ in a character that flattening keeps
        FlattenKeepsDifference(e[i], e[j], if i == 5 then 13 else 0);
      }
    }
  }

  /** So the configuration declares exactly fifteen entries. */
  lemma EntryPointsMapHasFifteenKeys()
    ensures |EntryPointsMap(EntryPoints)| == 15
  {
    EntryPointsFlattenDistinct();
    EntryPointsMapSize(EntryPoints);
  }

  /** In general flattening is not injective: `a/b` and `a-b` collide and the later one wins. */
  lemma FlattenCollision()
    ensures Flatten("a/b") == Flatten("a-b") == "a-b"
    ensures EntryPointsMap(["a/b", "a-b"]) == map["a-b" := "bundle/a-b"]
  {
    assert Flatten("a/b") == "a-b";
    assert Flatten("a-b") == "a-b";
    var entries := ["a/b", "a-b"];
    assert entries[..1] == ["a/b"];
    assert ["a/b"][..0] == [];
    assert BundlePrefix + "a/b" == "bundle/a/b";
    assert BundlePrefix + "a-b" == "bundle/a-b";
    assert EntryPointsMap(["a/b"]) == map["a-b" := "bundle/a/b"];
    assert EntryPointsMap(entries) == map["a-b" := "bundle/a/b"]["a-b" := "bundle/a-b"];
  }
}
