/**
 * The `RedirectPlayFrameworkUsingDummyMd5Files` emit hook.
 *
 * Play's asset finder serves a versioned `X.js` by reading `X.js.md5` and
 * then serving `<md5>-X.js`. Webpack names entry bundles `<chunkhash>-X.js`,
 * so for every emitted file whose last path segment has that shape the hook
 * adds a sidecar asset `X.js.md5` whose contents are the chunkhash, copied
 * verbatim. The pass first collects all sidecars, then inserts them into the
 * compilation's asset dictionary.
 */
module Md5Shim {
  import opened Wrappers
  import opened Text

  /** One entry of the hook's `fakeMd5Assets` list. */
  datatype Sidecar = Sidecar(filename: string, contents: string)

  /** An emitted asset as the dictionary holds it: what `source()` and `size()` return. */
  datatype Asset = Asset(source: string, size: int)

  // ---------------------------------------------------------------------
  // The regular expression /^([a-f0-9]+)-(.*\.js)$/

  /** Length of the longest prefix of `b` made of `[a-f0-9]` characters. */
  function HexRun(b: string): (k: nat)
    ensures k <= |b|
    ensures IsHex(b[..k])
    ensures k < |b| ==> !IsHexChar(b[k])
  {
    if b == [] || !IsHexChar(b[0]) then 0
    else
      var k := 1 + HexRun(b[1..]);
      assert forall i :: 1 <= i < k ==> b[..k][i] == b[1..][..k - 1][i - 1];
      k
  }

  /** `.*\.js$`: no line terminator (which `.` does not match), and a final `.js`. */
  predicate IsDotStarJs(rest: string)
  {
    EndsWith(rest, ".js") && HasNoLineTerminator(rest)
  }

  /** The regular expression matches `b` with `h` as group 1 and `rest` as group 2. */
  predicate Matches(b: string, h: string, rest: string)
  {
    b == h + "-" + rest && |h| > 0 && IsHex(h) && IsDotStarJs(rest)
  }

  /**
   * `/^([a-f0-9]+)-(.*\.js)$/.exec(b)`, giving groups 1 and 2. The hex class
   * cannot contain `-`, so group 1 is the maximal leading hex run and the
   * match needs a `-` right after it.
   */
  function ExecHashed(b: string): (m: Option<(string, string)>)
    ensures m.Some? ==> Matches(b, m.value.0, m.value.1)
  {
    var k := HexRun(b);
    if 0 < k < |b| && b[k] == '-' && IsDotStarJs(b[k + 1..]) then
      assert b == b[..k] + "-" + b[k + 1..];
      Some((b[..k], b[k + 1..]))
    else None
  }

  lemma {:induction false} HexRunAt(b: string, k: nat)
    requires k <= |b| && IsHex(b[..k])
    requires k < |b| ==> !IsHexChar(b[k])
    ensures HexRun(b) == k
  {
    if k > 0 {
      assert IsHexChar(b[..k][0]);
      assert b[1..][..k - 1] == b[..k][1..];
      HexRunAt(b[1..], k - 1);
    }
  }

  /** The regular expression matches with groups `h` and `rest` exactly when `exec` returns them. */
  lemma ExecHashedIffMatches(b: string, h: string, rest: string)
    ensures ExecHashed(b) == Some((h, rest)) <==> Matches(b, h, rest)
  {
    if Matches(b, h, rest) {
      assert b[..|h|] == h;
      assert b[|h|] == '-';
      HexRunAt(b, |h|);
      assert b[|h| + 1..] == rest;
    }
  }

  /** A match forces the whole segment to end in `.js`. */
  lemma ExecHashedNeedsJs(b: string)
    ensures ExecHashed(b).Some? ==> EndsWith(b, ".js")
  {
    if ExecHashed(b).Some? {
      var rest := ExecHashed(b).value.1;
      assert b[|b| - 3..] == rest[|rest| - 3..];
    }
  }

  // ---------------------------------------------------------------------
  // One filename

  /**
   * The sidecar one emitted filename yields: the regular expression is run on
   * the last `/`-segment only, and the directory part is not used.
   */
  function Shim(filename: string): (r: Option<Sidecar>)
    ensures r.Some? ==> '/' !in r.value.filename && EndsWith(r.value.filename, ".js.md5")
    ensures r.Some? ==> |r.value.contents| > 0 && IsHex(r.value.contents)
  {
    match ExecHashed(Basename(filename))
    case Some((h, rest)) =>
      SidecarNameShape(Basename(filename), h, rest);
      Some(Sidecar(rest + ".md5", h))
    case None => None
  }

  /** A segment without `/` that matches names a sidecar without `/` ending in `.js.md5`. */
  lemma SidecarNameShape(b: string, h: string, rest: string)
    requires Matches(b, h, rest) && '/' !in b
    ensures '/' !in rest + ".md5" && EndsWith(rest + ".md5", ".js.md5")
  {
    assert forall i :: 0 <= i < |rest| ==> rest[i] == b[|h| + 1 + i];
    var name := rest + ".md5";
    assert name[|name| - 7..] == rest[|rest| - 3..] + ".md5";
  }

  /**
   * A filename yields a sidecar exactly when its last segment is a non-empty
   * hex run, a `-`, and a remainder ending in `.js`; the sidecar is named after
   * the remainder and holds the hex run.
   */
  lemma ShimIffHashedBasename(filename: string, h: string, rest: string)
    ensures Shim(filename) == Some(Sidecar(rest + ".md5", h)) <==> Matches(Basename(filename), h, rest)
    ensures Shim(filename).None? <==> ExecHashed(Basename(filename)).None?
  {
    var b := Basename(filename);
    ExecHashedIffMatches(b, h, rest);
    if Shim(filename) == Some(Sidecar(rest + ".md5", h)) {
      var m := ExecHashed(b).value;
      assert m.1 + ".md5" == rest + ".md5";
      assert m.1 == (m.1 + ".md5")[..|m.1|];
      assert rest == (rest + ".md5")[..|rest|];
    }
  }

  /** The directory part of a filename never affects its sidecar. */
  lemma ShimIgnoresDirectory(dir: string, name: string)
    requires '/' !in name
    ensures Shim(dir + "/" + name) == Shim(name)
  {
    BasenameUnder(dir, name);
    BasenameOfName(name);
  }

  /** A sidecar's own name never yields another sidecar: it ends in `.md5`, not `.js`. */
  lemma SidecarNameNotShimmed(filename: string)
    requires Shim(filename).Some?
    ensures Shim(Shim(filename).value.filename) == None
  {
    var name := Shim(filename).value.filename;
    BasenameOfName(name);
    ExecHashedNeedsJs(name);
    assert !EndsWith(name, ".js") by {
      assert name[|name| - 1] == '5';
    }
  }

  // ---------------------------------------------------------------------
  // The whole asset list

  /** The values `f` gives for `xs`, in order, skipping the elements it gives none for. */
  function FilterMap<T, U>(xs: seq<T>, f: T -> Option<U>): (ys: seq<U>)
    ensures |ys| <= |xs|
  {
    if xs == [] then []
    else
      var init := FilterMap(xs[..|xs| - 1], f);
      match f(xs[|xs| - 1])
      case Some(y) => init + [y]
      case None => init
  }

  lemma {:induction false} FilterMapMembers<T, U>(xs: seq<T>, f: T -> Option<U>, y: U)
    ensures y in FilterMap(xs, f) <==> exists i :: 0 <= i < |xs| && f(xs[i]) == Some(y)
  {
    if xs != [] {
      var n := |xs| - 1;
      var init := xs[..n];
      var tail := if f(xs[n]).Some? then [f(xs[n]).value] else [];
      assert FilterMap(xs, f) == FilterMap(init, f) + tail;
      FilterMapMembers(init, f, y);
      if y in FilterMap(xs, f) {
        if y in FilterMap(init, f) {
          var i :| 0 <= i < |init| && f(init[i]) == Some(y);
          assert xs[i] == init[i];
        } else {
          assert f(xs[n]) == Some(y);
        }
      } else {
        forall i | 0 <= i < |xs|
          ensures f(xs[i]) != Some(y)
        {
          if i < n {
            assert xs[i] == init[i];
          }
        }
      }
    }
  }

  lemma {:induction false} FilterMapUnmatchedSuffix<T, U>(xs: seq<T>, extra: seq<T>, f: T -> Option<U>)
    requires forall i :: 0 <= i < |extra| ==> f(extra[i]).None?
    ensures FilterMap(xs + extra, f) == FilterMap(xs, f)
  {
    if extra != [] {
      var longer := xs + extra;
      assert longer[..|longer| - 1] == xs + extra[..|extra| - 1];
      FilterMapUnmatchedSuffix(xs, extra[..|extra| - 1], f);
    } else {
      assert xs + extra == xs;
    }
  }

  /** The `fakeMd5Assets` list after the `for…in` loop has visited `filenames` in order. */
  function SidecarsOf(filenames: seq<string>): seq<Sidecar>
  {
    FilterMap(filenames, Shim)
  }

  /** The collected list holds exactly the sidecars of the visited filenames. */
  lemma SidecarsOfMembers(filenames: seq<string>, s: Sidecar)
    ensures s in SidecarsOf(filenames) <==> exists i :: 0 <= i < |filenames| && Shim(filenames[i]) == Some(s)
  {
    FilterMapMembers(filenames, Shim, s);
  }

  /** Visiting one more filename appends its sidecar, if it yields one. */
  lemma SidecarsOfSnoc(filenames: seq<string>, filename: string)
    ensures SidecarsOf(filenames + [filename]) ==
      if Shim(filename).Some? then SidecarsOf(filenames) + [Shim(filename).value] else SidecarsOf(filenames)
  {
    assert (filenames + [filename])[..|filenames|] == filenames;
  }

  /** Visiting further filenames that yield no sidecar leaves the collected list as it was. */
  lemma SidecarsOfUnshimmedSuffix(filenames: seq<string>, extra: seq<string>)
    requires forall i :: 0 <= i < |extra| ==> Shim(extra[i]).None?
    ensures SidecarsOf(filenames + extra) == SidecarsOf(filenames)
  {
    FilterMapUnmatchedSuffix(filenames, extra, Shim);
  }

  /** The asset stored for a sidecar: `source()` gives the contents, `size()` their length. */
  function SidecarAsset(s: Sidecar): Asset
  {
    Asset(s.contents, |s.contents|)
  }

  /** The index of the last sidecar named `name`, or -1 when there is none. */
  function LastNamed(fake: seq<Sidecar>, name: string): (i: int)
    ensures -1 <= i < |fake|
    ensures i >= 0 ==> fake[i].filename == name
    ensures forall j :: i < j < |fake| ==> fake[j].filename != name
  {
    if fake == [] then -1
    else if fake[|fake| - 1].filename == name then |fake| - 1
    else LastNamed(fake[..|fake| - 1], name)
  }

  /** The dictionary after the `forEach` has assigned every sidecar in turn. */
  function InsertSidecars(assets: map<string, Asset>, fake: seq<Sidecar>): map<string, Asset>
  {
    if fake == [] then assets
    else
      var s := fake[|fake| - 1];
      InsertSidecars(assets, fake[..|fake| - 1])[s.filename := SidecarAsset(s)]
  }

  /**
   * The insertion is additive, and at each key the last sidecar of that name
   * wins; a key no sidecar names keeps its old asset.
   */
  lemma {:induction false} InsertSidecarsAt(assets: map<string, Asset>, fake: seq<Sidecar>, name: string)
    ensures name in InsertSidecars(assets, fake) <==> name in assets || LastNamed(fake, name) >= 0
    ensures name in InsertSidecars(assets, fake) ==>
      InsertSidecars(assets, fake)[name] ==
        if LastNamed(fake, name) >= 0 then SidecarAsset(fake[LastNamed(fake, name)]) else assets[name]
  {
    if fake != [] {
      InsertSidecarsAt(assets, fake[..|fake| - 1], name);
    }
  }

  /** Inserting the same sidecars a second time changes nothing. */
  lemma InsertSidecarsIdempotent(assets: map<string, Asset>, fake: seq<Sidecar>)
    ensures InsertSidecars(InsertSidecars(assets, fake), fake) == InsertSidecars(assets, fake)
  {
    var once := InsertSidecars(assets, fake);
    var twice := InsertSidecars(once, fake);
    forall name
      ensures name in twice <==> name in once
      ensures name in twice ==> twice[name] == once[name]
    {
      InsertSidecarsAt(assets, fake, name);
      InsertSidecarsAt(once, fake, name);
    }
  }

  /** The asset dictionary after the whole emit hook has run over `order`. */
  function EmitPass(assets: map<string, Asset>, order: seq<string>): map<string, Asset>
  {
    InsertSidecars(assets, SidecarsOf(order))
  }

  /**
   * The pass is additive: every key stays, and an asset changes only if its
   * key is the name of a generated sidecar.
   */
  lemma EmitPassAdditive(assets: map<string, Asset>, order: seq<string>, name: string)
    requires name in assets
    requires forall i :: 0 <= i < |order| ==> Shim(order[i]).None? || Shim(order[i]).value.filename != name
    ensures name in EmitPass(assets, order)
    ensures EmitPass(assets, order)[name] == assets[name]
  {
    var fake := SidecarsOf(order);
    InsertSidecarsAt(assets, fake, name);
    if LastNamed(fake, name) >= 0 {
      SidecarsOfMembers(order, fake[LastNamed(fake, name)]);
    }
  }

  /**
   * Every filename of the shape `<hash>-<rest>.js` gets its sidecar
   * `<rest>.js.md5`, whose size is the length of its contents; when no other
   * visited filename yields a sidecar of that name, the contents are exactly
   * its hash.
   */
  lemma EmitPassSidecarPresent(assets: map<string, Asset>, order: seq<string>, i: int)
    requires 0 <= i < |order| && Shim(order[i]).Some?
    ensures Shim(order[i]).value.filename in EmitPass(assets, order)
    ensures var a := EmitPass(assets, order)[Shim(order[i]).value.filename];
            a.size == |a.source|
    ensures (forall j :: 0 <= j < |order| && j != i && Shim(order[j]).Some? ==>
               Shim(order[j]).value.filename != Shim(order[i]).value.filename) ==>
            EmitPass(assets, order)[Shim(order[i]).value.filename] == SidecarAsset(Shim(order[i]).value)
  {
    var s := Shim(order[i]).value;
    var fake := SidecarsOf(order);
    SidecarsOfMembers(order, s);
    InsertSidecarsAt(assets, fake, s.filename);
    var k := LastNamed(fake, s.filename);
    SidecarsOfMembers(order, fake[k]);
  }

  /**
   * When several visited filenames yield sidecars of one name, the pass leaves
   * the sidecar of the last of them: the later file's hash wins.
   */
  lemma {:induction false} EmitPassLastWins(assets: map<string, Asset>, order: seq<string>, i: int)
    requires 0 <= i < |order| && Shim(order[i]).Some?
    requires forall j :: i < j < |order| && Shim(order[j]).Some? ==>
               Shim(order[j]).value.filename != Shim(order[i]).value.filename
    ensures Shim(order[i]).value.filename in EmitPass(assets, order)
    ensures EmitPass(assets, order)[Shim(order[i]).value.filename] == SidecarAsset(Shim(order[i]).value)
  {
    var n := |order| - 1;
    var init := order[..n];
    assert order == init + [order[n]];
    SidecarsOfSnoc(init, order[n]);
    var fake := SidecarsOf(order);
    if Shim(order[n]).Some? {
      assert fake[..|fake| - 1] == SidecarsOf(init);
    }
    if i < n {
      forall j | i < j < |init| && Shim(init[j]).Some?
        ensures Shim(init[j]).value.filename != Shim(init[i]).value.filename
      {
        assert init[j] == order[j];
      }
      assert init[i] == order[i];
      EmitPassLastWins(assets, init, i);
    }
  }

  /**
   * Running the pass again over the resulting dictionary, listing the old keys
   * first and the added sidecars after them, changes nothing: the added names
   * never match the pattern.
   */
  lemma EmitPassRerun(assets: map<string, Asset>, order: seq<string>, added: seq<string>)
    requires forall i :: 0 <= i < |added| ==>
               exists k :: 0 <= k < |SidecarsOf(order)| && SidecarsOf(order)[k].filename == added[i]
    ensures EmitPass(EmitPass(assets, order), order + added) == EmitPass(assets, order)
  {
    var fake := SidecarsOf(order);
    forall i | 0 <= i < |added|
      ensures Shim(added[i]).None?
    {
      assert exists k :: 0 <= k < |fake| && fake[k].filename == added[i];
      var k :| 0 <= k < |SidecarsOf(order)| && SidecarsOf(order)[k].filename == added[i];
      var s := SidecarsOf(order)[k];
      SidecarsOfMembers(order, s);
      var j :| 0 <= j < |order| && Shim(order[j]) == Some(s);
      SidecarNameNotShimmed(order[j]);
    }
    SidecarsOfUnshimmedSuffix(order, added);
    InsertSidecarsIdempotent(assets, SidecarsOf(order));
  }

  // ---------------------------------------------------------------------
  // The hook itself, over the compilation's mutable asset dictionary

  /** `order` is a `for…in` enumeration of the dictionary: every key, once. */
  ghost predicate ListsKeysOnce(order: seq<string>, assets: map<string, Asset>)
  {
    (forall i, j :: 0 <= i < j < |order| ==> order[i] != order[j]) &&
    (forall f :: f in assets <==> f in order)
  }

  class Compilation {
    var assets: map<string, Asset>

    constructor (assets: map<string, Asset>)
      ensures this.assets == assets
    {
      this.assets := assets;
    }
  }

  /** The `for…in` loop that fills `fakeMd5Assets`. */
  method CollectSidecars(order: seq<string>) returns (fake: seq<Sidecar>)
    ensures fake == SidecarsOf(order)
  {
    fake := [];
    for i := 0 to |order|
      invariant fake == SidecarsOf(order[..i])
    {
      var filename := order[i];
      var pathParts := Split(filename, '/');
      var basename := pathParts[|pathParts| - 1];
      var m := ExecHashed(basename);
      ghost var next := if m.Some? then fake + [Sidecar(m.value.1 + ".md5", m.value.0)] else fake;
      assert next == SidecarsOf(order[..i + 1]) by {
        assert basename == Basename(filename);
        assert order[..i + 1] == order[..i] + [filename];
        SidecarsOfSnoc(order[..i], filename);
      }
      if m.Some? {
        // the hook also computes the directory part here and never uses it
        var hashThatIsntReallyMd5 := m.value.0;
        var basenameWithoutHash := m.value.1;
        fake := fake + [Sidecar(basenameWithoutHash + ".md5", hashThatIsntReallyMd5)];
      }
    }
    assert order[..|order|] == order;
  }

  /** The `forEach` that assigns every collected sidecar into the dictionary. */
  method InsertSidecarsInto(compilation: Compilation, fake: seq<Sidecar>)
    modifies compilation
    ensures compilation.assets == InsertSidecars(old(compilation.assets), fake)
  {
    for i := 0 to |fake|
      invariant compilation.assets == InsertSidecars(old(compilation.assets), fake[..i])
    {
      var newAsset := fake[i];
      compilation.assets := compilation.assets[newAsset.filename := SidecarAsset(newAsset)];
      assert fake[..i + 1][..i] == fake[..i];
    }
    assert fake[..|fake|] == fake;
  }

  /**
   * The emit hook body: collect, then insert. Afterwards every key is still
   * there, and every file of the hashed shape has its sidecar.
   */
  method Emit(compilation: Compilation, order: seq<string>)
    requires ListsKeysOnce(order, compilation.assets)
    modifies compilation
    ensures compilation.assets == EmitPass(old(compilation.assets), order)
    ensures old(compilation.assets).Keys <= compilation.assets.Keys
    ensures forall f :: f in old(compilation.assets) && Shim(f).Some? ==>
              Shim(f).value.filename in compilation.assets
  {
    var fakeMd5Assets := CollectSidecars(order);
    InsertSidecarsInto(compilation, fakeMd5Assets);
    forall f | f in old(compilation.assets)
      ensures f in compilation.assets
      ensures Shim(f).Some? ==> Shim(f).value.filename in compilation.assets
    {
      InsertSidecarsAt(old(compilation.assets), fakeMd5Assets, f);
      var i :| 0 <= i < |order| && order[i] == f;
      if Shim(f).Some? {
        EmitPassSidecarPresent(old(compilation.assets), order, i);
      }
    }
  }
}
