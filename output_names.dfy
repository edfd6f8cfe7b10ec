/**
 * The output filename templates of the configuration, read as naming
 * functions, and how the sidecar pass treats each kind of emitted file:
 * entry bundles `[chunkhash]-[name].js` get a sidecar, shared chunks
 * `[chunkhash].chunk.js` and source maps `[file].map` never do.
 */
module OutputNames {
  import opened Wrappers
  import opened Text
  import opened Md5Shim
  import opened Entries

  /** `output.filename`: `[chunkhash]-[name].js`. */
  function EntryFilename(chunkhash: string, name: string): string
  {
    chunkhash + "-" + name + ".js"
  }

  /** `output.sourceMapFilename`: `[file].map`. */
  function SourceMapFilename(file: string): string
  {
    file + ".map"
  }

  /** `output.chunkFilename`: `[chunkhash].chunk.js`. */
  function ChunkFilename(chunkhash: string): string
  {
    chunkhash + ".chunk.js"
  }

  /**
   * The entry bundle `h-n.js` yields exactly the sidecar `n.js.md5` holding
   * `h`, which is what Play reads to find `h-n.js` again; `n` may itself
   * contain `-`.
   */
  lemma EntryFileRoundTrip(chunkhash: string, name: string)
    requires |chunkhash| > 0 && IsHex(chunkhash)
    requires '/' !in name && HasNoLineTerminator(name)
    ensures Shim(EntryFilename(chunkhash, name)) == Some(Sidecar(name + ".js.md5", chunkhash))
  {
    var file := EntryFilename(chunkhash, name);
    var rest := name + ".js";
    assert file == chunkhash + "-" + rest;
    assert '/' !in chunkhash by {
      assert forall i :: 0 <= i < |chunkhash| ==> IsHexChar(chunkhash[i]);
    }
    assert '/' !in file by {
      assert forall i :: 0 <= i < |file| ==> file[i] != '/' by {
        forall i | 0 <= i < |file| ensures file[i] != '/' {
          if i < |chunkhash| {
            assert file[i] == chunkhash[i];
          } else if i > |chunkhash| && i < |chunkhash| + 1 + |name| {
            assert file[i] == name[i - |chunkhash| - 1];
          }
        }
      }
    }
    BasenameOfName(file);
    assert HasNoLineTerminator(rest) by {
      forall i | 0 <= i < |rest| ensures !IsLineTerminator(rest[i]) {
        if i < |name| {
          assert rest[i] == name[i];
        }
      }
    }
    assert Matches(file, chunkhash, rest);
    ShimIffHashedBasename(file, chunkhash, rest);
    assert rest + ".md5" == name + ".js.md5";
  }

  /**
   * The same for every configured entry: the flattened entry name never holds
   * a `/`, so its bundle's sidecar is named after the flattened name.
   */
  lemma EntryBundleRoundTrip(chunkhash: string, entry: string)
    requires |chunkhash| > 0 && IsHex(chunkhash)
    requires HasNoLineTerminator(entry)
    ensures Shim(EntryFilename(chunkhash, Flatten(entry))) == Some(Sidecar(Flatten(entry) + ".js.md5", chunkhash))
  {
    var name := Flatten(entry);
    assert HasNoLineTerminator(name) by {
      forall i | 0 <= i < |name| ensures !IsLineTerminator(name[i]) {
        assert name[i] == '-' || name[i] == entry[i];
      }
    }
    EntryFileRoundTrip(chunkhash, name);
  }

  /** A shared chunk `h.chunk.js` has no `-` after its hash, so it never yields a sidecar. */
  lemma ChunkNeverShimmed(chunkhash: string)
    requires IsHex(chunkhash)
    ensures Shim(ChunkFilename(chunkhash)) == None
  {
    var file := ChunkFilename(chunkhash);
    assert '/' !in file by {
      forall i | 0 <= i < |file| ensures file[i] != '/' {
        if i < |chunkhash| {
          assert file[i] == chunkhash[i] && IsHexChar(chunkhash[i]);
        }
      }
    }
    BasenameOfName(file);
    assert file[..|chunkhash|] == chunkhash;
    HexRunAt(file, |chunkhash|);
    assert file[|chunkhash|] == '.';
  }

  /** A source map `file.map` ends in `.map`, not `.js`, so it never yields a sidecar. */
  lemma SourceMapNeverShimmed(file: string)
    ensures Shim(SourceMapFilename(file)) == None
  {
    var b := Basename(SourceMapFilename(file));
    BasenameAppend(file, ".map");
    ExecHashedNeedsJs(b);
    assert !EndsWith(b, ".js") by {
      assert b[|b| - 1] == 'p';
    }
  }

  /**
   * A build of one entry: after the pass over the bundle `h-n.js` and its
   * source map `h-n.js.map`, both are untouched and the only addition is
   * `n.js.md5`, holding exactly `h`.
   */
  lemma SingleEntryBuild(chunkhash: string, name: string, bundle: Asset, sourceMap: Asset)
    requires |chunkhash| > 0 && IsHex(chunkhash)
    requires '/' !in name && HasNoLineTerminator(name)
    ensures var file := EntryFilename(chunkhash, name);
            var assets := map[file := bundle, SourceMapFilename(file) := sourceMap];
            EmitPass(assets, [file, SourceMapFilename(file)])
              == assets[name + ".js.md5" := Asset(chunkhash, |chunkhash|)]
  {
    var file := EntryFilename(chunkhash, name);
    var order := [file, SourceMapFilename(file)];
    EntryFileRoundTrip(chunkhash, name);
    SourceMapNeverShimmed(file);
    var sidecar := Sidecar(name + ".js.md5", chunkhash);
    SidecarsOfSnoc([], file);
    assert [] + [file] == [file];
    SidecarsOfSnoc([file], SourceMapFilename(file));
    assert [file] + [SourceMapFilename(file)] == order;
    assert SidecarsOf(order) == [sidecar];
    assert [sidecar][..0] == [];
    var assets := map[file := bundle, SourceMapFilename(file) := sourceMap];
    assert InsertSidecars(assets, [sidecar]) == InsertSidecars(assets, [])[sidecar.filename := SidecarAsset(sidecar)];
  }

  /**
   * Two bundles of one entry name with different hashes, say from two builds
   * left in the output: the sidecar holds the hash of the one visited last.
   */
  lemma RivalBundlesLastWins(assets: map<string, Asset>, earlier: string, later: string, name: string)
    requires |earlier| > 0 && IsHex(earlier) && |later| > 0 && IsHex(later)
    requires '/' !in name && HasNoLineTerminator(name)
    ensures name + ".js.md5" in EmitPass(assets, [EntryFilename(earlier, name), EntryFilename(later, name)])
    ensures EmitPass(assets, [EntryFilename(earlier, name), EntryFilename(later, name)])[name + ".js.md5"]
            == Asset(later, |later|)
  {
    var order := [EntryFilename(earlier, name), EntryFilename(later, name)];
    EntryFileRoundTrip(later, name);
    EmitPassLastWins(assets, order, 1);
  }
}
