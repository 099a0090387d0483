/** The few Python string primitives the log processor relies on:
    `str.strip()`, `str.split(sep)` with a one-character separator, the
    first and second pieces of such a split, and `os.path.basename`. */
module Text {

  /** Python's `str.isspace()` for one character: the code points that
      `strip()` with no argument removes. */
  predicate IsSpace(c: char) {
    var n := c as int;
    || 9 <= n <= 13 || 28 <= n <= 32
    || n == 0x85 || n == 0xA0 || n == 0x1680
    || 0x2000 <= n <= 0x200A
    || n == 0x2028 || n == 0x2029 || n == 0x202F || n == 0x205F || n == 0x3000
  }

  predicate AllSpace(s: string) {
    forall i :: 0 <= i < |s| ==> IsSpace(s[i])
  }

  /** Neither the first nor the last character is white space. */
  predicate NoEdgeSpace(s: string) {
    s == [] || (!IsSpace(s[0]) && !IsSpace(s[|s| - 1]))
  }

  /** `s.lstrip()`: the longest suffix of `s` that does not start with white space. */
  function TrimStart(s: string): (r: string)
    ensures |r| <= |s| && r == s[|s| - |r|..]
    ensures AllSpace(s[..|s| - |r|])
    ensures r == [] || !IsSpace(r[0])
    decreases |s|
  {
    if |s| > 0 && IsSpace(s[0]) then TrimStart(s[1..]) else s
  }

  /** `s.rstrip()`: the longest prefix of `s` that does not end with white space. */
  function TrimEnd(s: string): (r: string)
    ensures |r| <= |s| && r == s[..|r|]
    ensures AllSpace(s[|r|..])
    ensures r == [] || !IsSpace(r[|r| - 1])
    decreases |s|
  {
    if |s| > 0 && IsSpace(s[|s| - 1]) then TrimEnd(s[..|s| - 1]) else s
  }

  /** `s.strip()`. */
  function Trim(s: string): (r: string)
    ensures |r| <= |s|
    ensures NoEdgeSpace(r)
    ensures AllSpace(s) <==> r == []
  {
    var t := TrimStart(s);
    var r := TrimEnd(t);
    if r == [] then
      // nothing survives the right strip, so the left strip already removed everything
      assert t == [] by {
        assert t[|r|..] == t;
      }
      assert AllSpace(s) by {
        assert s[..|s| - |t|] == s;
      }
      r
    else
      assert r[0] == t[0] && t[0] == s[|s| - |t|];
      assert !AllSpace(s);
      r
  }

  lemma {:induction false} TrimStartPadded(w: string, x: string)
    requires AllSpace(w) && (x == [] || !IsSpace(x[0]))
    ensures TrimStart(w + x) == x
    decreases |w|
  {
    if |w| == 0 {
      assert w + x == x;
    } else {
      assert (w + x)[0] == w[0];
      assert (w + x)[1..] == w[1..] + x;
      TrimStartPadded(w[1..], x);
    }
  }

  lemma {:induction false} TrimEndPadded(x: string, w: string)
    requires AllSpace(w) && (x == [] || !IsSpace(x[|x| - 1]))
    ensures TrimEnd(x + w) == x
    decreases |w|
  {
    if |w| == 0 {
      assert x + w == x;
    } else {
      var s := x + w;
      assert s[|s| - 1] == w[|w| - 1];
      assert s[..|s| - 1] == x + w[..|w| - 1];
      TrimEndPadded(x, w[..|w| - 1]);
    }
  }

  /** Stripping removes exactly the white space around a core that has none
      at its edges: `Trim` is the unique such decomposition. */
  lemma TrimPadded(w1: string, core: string, w2: string)
    requires AllSpace(w1) && AllSpace(w2) && NoEdgeSpace(core)
    ensures Trim(w1 + core + w2) == core
  {
    if core == [] {
      assert w1 + core + w2 == (w1 + w2) + [];
      assert AllSpace(w1 + w2) by {
        assert forall i :: 0 <= i < |w1| ==> (w1 + w2)[i] == w1[i];
        assert forall i :: |w1| <= i < |w1 + w2| ==> (w1 + w2)[i] == w2[i - |w1|];
      }
      TrimStartPadded(w1 + w2, []);
    } else {
      assert w1 + core + w2 == w1 + (core + w2);
      TrimStartPadded(w1, core + w2);
      TrimEndPadded(core, w2);
    }
  }

  /** Stripping a string that is already stripped changes nothing. */
  lemma TrimIdempotent(s: string)
    ensures Trim(Trim(s)) == Trim(s)
  {
    var r := Trim(s);
    TrimPadded([], r, []);
    assert [] + r + [] == r;
  }

  /** Position of the first occurrence of `c` in `s`. */
  function IndexOf(s: string, c: char): (i: nat)
    requires c in s
    ensures i < |s| && s[i] == c && c !in s[..i]
  {
    if s[0] == c then 0
    else
      var j := IndexOf(s[1..], c);
      assert s[..j + 1] == [s[0]] + s[1..][..j];
      j + 1
  }

  /** Any position holding `c` with no earlier `c` is the one `IndexOf` finds. */
  lemma IndexOfUnique(s: string, c: char, k: nat)
    requires k < |s| && s[k] == c && c !in s[..k]
    ensures IndexOf(s, c) == k
  {
    var i := IndexOf(s, c);
    assert forall j :: 0 <= j < k ==> s[j] == s[..k][j];
    assert forall j :: 0 <= j < i ==> s[j] == s[..i][j];
  }

  /** `sep.join(ps)` for a one-character separator. */
  function Join(ps: seq<string>, sep: char): string
  {
    if |ps| == 0 then []
    else if |ps| == 1 then ps[0]
    else ps[0] + [sep] + Join(ps[1..], sep)
  }

  /** `s.split(sep)`: the pieces between separators, at least one piece
      (`"".split(",") == [""]`), more than one exactly when `sep` occurs. */
  function Split(s: string, sep: char): (ps: seq<string>)
    ensures |ps| >= 1
    ensures forall i :: 0 <= i < |ps| ==> sep !in ps[i]
    ensures Join(ps, sep) == s
    ensures |ps| >= 2 <==> sep in s
    decreases |s|
  {
    if sep in s then
      var i := IndexOf(s, sep);
      var rest := Split(s[i + 1..], sep);
      var ps := [s[..i]] + rest;
      assert ps[1..] == rest;
      assert s == s[..i] + [sep] + s[i + 1..];
      ps
    else
      [s]
  }

  /** Joining sep-free pieces and splitting again gives the pieces back. */
  lemma {:induction false} SplitJoin(ps: seq<string>, sep: char)
    requires |ps| >= 1
    requires forall i :: 0 <= i < |ps| ==> sep !in ps[i]
    ensures Split(Join(ps, sep), sep) == ps
    decreases |ps|
  {
    if |ps| > 1 {
      var rest := Join(ps[1..], sep);
      var s := ps[0] + [sep] + rest;
      assert s[..|ps[0]|] == ps[0];
      assert s[|ps[0]|] == sep;
      IndexOfUnique(s, sep, |ps[0]|);
      assert s[|ps[0]| + 1..] == rest;
      SplitJoin(ps[1..], sep);
      assert [ps[0]] + ps[1..] == ps;
    }
  }

  /** `s.split(c)[0]`: the text before the first `c`, or all of `s`. */
  function Before(s: string, c: char): (r: string)
    ensures |r| <= |s| && r == s[..|r|]
    ensures c !in r
    ensures c in s <==> |r| < |s|
    ensures |r| < |s| ==> s[|r|] == c
  {
    if c in s then s[..IndexOf(s, c)] else s
  }

  /** A sep-free prefix followed by the separator (or by nothing) is what `Before` returns. */
  lemma BeforeUnique(s: string, c: char, p: string)
    requires |p| <= |s| && s[..|p|] == p && c !in p
    requires |p| == |s| || s[|p|] == c
    ensures Before(s, c) == p
  {
    var r := Before(s, c);
    assert forall j :: 0 <= j < |p| ==> s[j] == p[j];
    assert forall j :: 0 <= j < |r| ==> s[j] == r[j];
  }

  /** The text after the first `c`. */
  function After(s: string, c: char): (r: string)
    requires c in s
    ensures |Before(s, c)| + 1 + |r| == |s|
    ensures r == s[|Before(s, c)| + 1..]
  {
    s[IndexOf(s, c) + 1..]
  }

  /** The text between the first and the second `c`, or up to the end
      when there is no second `c`: `s.split(c)[1]` (`SecondIsSplit`). */
  function Second(s: string, c: char): (r: string)
    requires c in s
    ensures c !in r
    ensures var j := |Before(s, c)| + 1;
      && j + |r| <= |s|
      && r == s[j..j + |r|]
      && (j + |r| == |s| || s[j + |r|] == c)
  {
    var j := |Before(s, c)| + 1;
    var tail := After(s, c);
    var r := Before(tail, c);
    assert r == s[j..j + |r|] by {
      assert tail[..|r|] == s[j..j + |r|];
    }
    assert j + |r| == |s| || s[j + |r|] == c by {
      if |r| < |tail| {
        assert tail[|r|] == s[j + |r|];
      }
    }
    r
  }

  lemma SecondIsSplit(s: string, c: char)
    requires c in s
    ensures |Split(s, c)| >= 2 && Second(s, c) == Split(s, c)[1]
  {
    SplitAfter(s, c);
  }

  /** Splitting peels off the text before the first separator and goes on
      with the text after it. */
  lemma SplitAfter(s: string, c: char)
    requires c in s
    ensures Split(s, c) == [Before(s, c)] + Split(After(s, c), c)
  {
  }

  /** A separator-free head joined to a tail splits into the head followed by
      the pieces of the tail. */
  lemma SplitCons(a: string, sep: char, b: string)
    requires sep !in a
    ensures Split(a + [sep] + b, sep) == [a] + Split(b, sep)
  {
    var s := a + [sep] + b;
    assert s[..|a|] == a;
    IndexOfUnique(s, sep, |a|);
    assert s[|a| + 1..] == b;
  }

  /** `os.path.basename(p)` on POSIX: the text after the last `/`. */
  function BaseName(p: string): (r: string)
    ensures |r| <= |p| && r == p[|p| - |r|..]
    ensures '/' !in r
    ensures |r| < |p| ==> p[|p| - |r| - 1] == '/'
    decreases |p|
  {
    if |p| == 0 || p[|p| - 1] == '/' then []
    else
      var q := p[..|p| - 1];
      var b := BaseName(q);
      var k := |q| - |b|;
      assert p == q + [p[|p| - 1]];
      assert p[k..] == q[k..] + [p[|p| - 1]];
      assert k > 0 ==> p[k - 1] == q[k - 1];
      b + [p[|p| - 1]]
  }

  /** A path without any directory part is its own base name. */
  lemma {:induction false} BaseNameOfPlain(p: string)
    requires '/' !in p
    ensures BaseName(p) == p
    decreases |p|
  {
    if |p| > 0 {
      var q := p[..|p| - 1];
      assert forall j :: 0 <= j < |q| ==> q[j] == p[j];
      BaseNameOfPlain(q);
      assert q + [p[|p| - 1]] == p;
    }
  }

  /** Any directory prefix ending in `/` is dropped by `BaseName`. */
  lemma {:induction false} BaseNameOfPath(dir: string, name: string)
    requires '/' !in name
    ensures BaseName(dir + "/" + name) == name
    decreases |name|
  {
    var p := dir + "/" + name;
    if |name| == 0 {
      assert p[|p| - 1] == '/';
    } else {
      var q := name[..|name| - 1];
      assert forall j :: 0 <= j < |q| ==> q[j] == name[j];
      assert p[..|p| - 1] == dir + "/" + q;
      assert p[|p| - 1] == name[|name| - 1];
      BaseNameOfPath(dir, q);
      assert q + [name[|name| - 1]] == name;
    }
  }
}
