/**
 * The string operations the build configuration uses on asset filenames:
 * `split('/')`, `slice(...).join('/')`, and the character classes of the
 * regular expression that recognises hashed filenames.
 */
module Text {

  /** `[a-f0-9]`: a lower-case hexadecimal digit. */
  predicate IsHexChar(c: char)
  {
    '0' <= c <= '9' || 'a' <= c <= 'f'
  }

  predicate IsHex(s: string)
  {
    forall i :: 0 <= i < |s| ==> IsHexChar(s[i])
  }

  /** The characters a JavaScript regular expression's `.` does not match. */
  predicate IsLineTerminator(c: char)
  {
    c == '\n' || c == '\r' || c == '\U{2028}' || c == '\U{2029}'
  }

  predicate HasNoLineTerminator(s: string)
  {
    forall i :: 0 <= i < |s| ==> !IsLineTerminator(s[i])
  }

  predicate EndsWith(s: string, suffix: string)
  {
    |suffix| <= |s| && s[|s| - |suffix|..] == suffix
  }

  /**
   * The pieces of `[c] + s`, given the pieces of `s`: a separator starts a
   * new empty first piece, any other character joins the first piece.
   */
  function PushChar(c: char, sep: char, pieces: seq<string>): (r: seq<string>)
    requires |pieces| >= 1
    ensures |r| >= 1
  {
    if c == sep then [[]] + pieces else [[c] + pieces[0]] + pieces[1..]
  }

  /**
   * `s.split(sep)` for a one-character separator: the pieces between
   * separators, empty pieces included, so there is always at least one.
   */
  function Split(s: string, sep: char): (parts: seq<string>)
    ensures |parts| >= 1
  {
    if s == [] then [[]] else PushChar(s[0], sep, Split(s[1..], sep))
  }

  /** `parts.join(sep)` for a non-empty array of pieces. */
  function Join(parts: seq<string>, sep: char): string
    requires |parts| >= 1
  {
    if |parts| == 1 then parts[0] else parts[0] + [sep] + Join(parts[1..], sep)
  }

  /** The last `/`-separated segment of a filename. */
  function Basename(filename: string): (b: string)
    ensures '/' !in b
  {
    var parts := Split(filename, '/');
    SplitPiecesLackSeparator(filename, '/');
    parts[|parts| - 1]
  }

  /** All segments but the last, joined again with `/`; empty when there is no `/`. */
  function Dirname(filename: string): string
  {
    var parts := Split(filename, '/');
    if |parts| == 1 then [] else Join(parts[..|parts| - 1], '/')
  }

  /** The pieces with `t` appended to the last one. */
  function ExtendLast(pieces: seq<string>, t: string): seq<string>
    requires |pieces| >= 1
  {
    pieces[..|pieces| - 1] + [pieces[|pieces| - 1] + t]
  }

  // ---------------------------------------------------------------------
  // one step of split

  lemma SplitCons(c: char, s: string, sep: char)
    ensures Split([c] + s, sep) == PushChar(c, sep, Split(s, sep))
  {
    assert ([c] + s)[1..] == s;
  }

  lemma PushCharAppend(c: char, sep: char, pz: seq<string>, py: seq<string>)
    requires |pz| >= 1
    ensures PushChar(c, sep, pz + py) == PushChar(c, sep, pz) + py
  {
    if c != sep {
      assert (pz + py)[0] == pz[0];
      assert (pz + py)[1..] == pz[1..] + py;
    }
  }

  lemma PushCharExtendLast(c: char, sep: char, ps: seq<string>, t: string)
    requires |ps| >= 1
    ensures PushChar(c, sep, ExtendLast(ps, t)) == ExtendLast(PushChar(c, sep, ps), t)
  {
    var m := |ps|;
    if c != sep {
      if m == 1 {
        assert [c] + (ps[0] + t) == ([c] + ps[0]) + t;
      } else {
        var ext := ExtendLast(ps, t);
        assert ext[0] == ps[0];
        assert ext[1..] == ps[1..m - 1] + [ps[m - 1] + t];
      }
    }
  }

  lemma {:induction false} JoinPushChar(c: char, sep: char, ps: seq<string>)
    requires |ps| >= 1
    ensures Join(PushChar(c, sep, ps), sep) == [c] + Join(ps, sep)
  {
    var r := PushChar(c, sep, ps);
    if c == sep {
      assert r[1..] == ps;
    } else if |ps| > 1 {
      assert r[1..] == ps[1..];
    }
  }

  // ---------------------------------------------------------------------
  // split and join are inverse to each other

  /** No piece of a split contains the separator. */
  lemma {:induction false} SplitPiecesLackSeparator(s: string, sep: char)
    ensures forall i :: 0 <= i < |Split(s, sep)| ==> sep !in Split(s, sep)[i]
  {
    if s != [] {
      var c, z := s[0], s[1..];
      assert s == [c] + z;
      SplitPiecesLackSeparator(z, sep);
      SplitCons(c, z, sep);
      var pz := Split(z, sep);
      if c != sep {
        assert sep !in [c] + pz[0];
        assert forall i :: 1 <= i < |pz| ==> pz[1..][i - 1] == pz[i];
      }
    }
  }

  lemma {:induction false} JoinSplit(s: string, sep: char)
    ensures Join(Split(s, sep), sep) == s
  {
    if s != [] {
      var c, z := s[0], s[1..];
      assert s == [c] + z;
      JoinSplit(z, sep);
      SplitCons(c, z, sep);
      JoinPushChar(c, sep, Split(z, sep));
    }
  }

  lemma {:induction false} SplitWithoutSeparator(s: string, sep: char)
    requires sep !in s
    ensures Split(s, sep) == [s]
  {
    if s != [] {
      var c, z := s[0], s[1..];
      assert s == [c] + z;
      assert sep !in z;
      SplitWithoutSeparator(z, sep);
      SplitCons(c, z, sep);
    }
  }

  lemma {:induction false} SplitAtSeparator(s: string, sep: char)
    requires sep in s
    ensures |Split(s, sep)| >= 2
  {
    var c, z := s[0], s[1..];
    assert s == [c] + z;
    SplitCons(c, z, sep);
    if c != sep {
      assert sep in z;
      SplitAtSeparator(z, sep);
    }
  }

  /** Splitting at one separator splits the two sides independently. */
  lemma {:induction false} SplitAround(x: string, sep: char, y: string)
    ensures Split(x + [sep] + y, sep) == Split(x, sep) + Split(y, sep)
  {
    if x == [] {
      assert x + [sep] + y == [sep] + y;
      SplitCons(sep, y, sep);
    } else {
      var c, z := x[0], x[1..];
      assert x == [c] + z && x + [sep] + y == [c] + (z + [sep] + y);
      SplitAround(z, sep, y);
      SplitCons(c, z, sep);
      SplitCons(c, z + [sep] + y, sep);
      PushCharAppend(c, sep, Split(z, sep), Split(y, sep));
    }
  }

  /** Appending text without a separator only extends the last piece. */
  lemma {:induction false} SplitAppendLast(x: string, sep: char, t: string)
    requires sep !in t
    ensures Split(x + t, sep) == ExtendLast(Split(x, sep), t)
  {
    if x == [] {
      assert x + t == t;
      SplitWithoutSeparator(t, sep);
    } else {
      var c, y := x[0], x[1..];
      assert x == [c] + y && x + t == [c] + (y + t);
      SplitAppendLast(y, sep, t);
      SplitCons(c, y, sep);
      SplitCons(c, y + t, sep);
      PushCharExtendLast(c, sep, Split(y, sep), t);
    }
  }

  lemma {:induction false} SplitJoin(parts: seq<string>, sep: char)
    requires |parts| >= 1
    requires forall i :: 0 <= i < |parts| ==> sep !in parts[i]
    ensures Split(Join(parts, sep), sep) == parts
  {
    SplitWithoutSeparator(parts[0], sep);
    if |parts| > 1 {
      SplitJoin(parts[1..], sep);
      SplitAround(parts[0], sep, Join(parts[1..], sep));
    }
  }

  lemma {:induction false} JoinSnoc(parts: seq<string>, sep: char)
    requires |parts| >= 2
    ensures Join(parts, sep) == Join(parts[..|parts| - 1], sep) + [sep] + parts[|parts| - 1]
  {
    if |parts| > 2 {
      JoinSnoc(parts[1..], sep);
      assert parts[1..][..|parts| - 2] == parts[..|parts| - 1][1..];
    }
  }

  // ---------------------------------------------------------------------
  // basename and dirname

  /** A filename is its dirname, a `/`, and its basename; or just its basename. */
  lemma DirnameAndBasename(filename: string)
    ensures '/' in filename ==> filename == Dirname(filename) + "/" + Basename(filename)
    ensures '/' !in filename ==> filename == Basename(filename) && Dirname(filename) == ""
  {
    var parts := Split(filename, '/');
    JoinSplit(filename, '/');
    if '/' in filename {
      SplitAtSeparator(filename, '/');
      JoinSnoc(parts, '/');
    } else {
      SplitWithoutSeparator(filename, '/');
    }
  }

  lemma BasenameUnder(dir: string, b: string)
    requires '/' !in b
    ensures Basename(dir + "/" + b) == b
  {
    SplitAround(dir, '/', b);
    SplitWithoutSeparator(b, '/');
  }

  lemma BasenameOfName(b: string)
    requires '/' !in b
    ensures Basename(b) == b
  {
    SplitWithoutSeparator(b, '/');
  }

  lemma BasenameAppend(x: string, t: string)
    requires '/' !in t
    ensures Basename(x + t) == Basename(x) + t
  {
    SplitAppendLast(x, '/', t);
  }
}
