/** String helpers shared by the scan, the driver and the preview: Python's
    str(n) for non-negative integers, Python's ordering of str values and the
    sort built on it, and the POSIX behaviour of os.path.join, basename and
    splitext. */
module Text {

  // ---------------------------------------------------------------------------
  // Decimal numerals
  // ---------------------------------------------------------------------------

  function DigitChar(d: nat): (c: char)
    requires d < 10
    ensures '0' <= c <= '9' && (c as int) - ('0' as int) == d
  {
    (('0' as int) + d) as char
  }

  predicate IsDigits(s: string)
  {
    forall i :: 0 <= i < |s| ==> '0' <= s[i] <= '9'
  }

  /** Python's str(n) (and f"{n}") for n >= 0: no leading zeros, at least one digit. */
  function NatToString(n: nat): (s: string)
    ensures |s| >= 1 && IsDigits(s)
    ensures n < 10 <==> |s| == 1
    decreases n
  {
    if n < 10 then [DigitChar(n)] else NatToString(n / 10) + [DigitChar(n % 10)]
  }

  /** The value of a string of decimal digits. */
  function DigitsValue(s: string): nat
    requires IsDigits(s)
    decreases |s|
  {
    if s == [] then 0
    else DigitsValue(s[..|s| - 1]) * 10 + ((s[|s| - 1] as int) - ('0' as int))
  }

  /** Reading back a numeral gives the number it was written from. */
  lemma {:induction false} DigitsValueOfNatToString(n: nat)
    ensures DigitsValue(NatToString(n)) == n
    decreases n
  {
    if n >= 10 {
      DigitsValueOfNatToString(n / 10);
      var s := NatToString(n);
      assert s[..|s| - 1] == NatToString(n / 10);
    }
  }

  /** Distinct numbers have distinct numerals. */
  lemma NatToStringInjective(a: nat, b: nat)
    ensures NatToString(a) == NatToString(b) ==> a == b
  {
    DigitsValueOfNatToString(a);
    DigitsValueOfNatToString(b);
  }

  // ---------------------------------------------------------------------------
  // Python's ordering of str values (code point by code point) and sorted()
  // ---------------------------------------------------------------------------

  /** a <= b on Python strings: lexicographic by code point, a prefix sorts first. */
  predicate StrLe(a: string, b: string)
    decreases |a|
  {
    if a == [] then true
    else if b == [] then false
    else if a[0] != b[0] then a[0] < b[0]
    else StrLe(a[1..], b[1..])
  }

  lemma {:induction false} StrLeTotal(a: string, b: string)
    ensures StrLe(a, b) || StrLe(b, a)
    decreases |a|
  {
    if a != [] && b != [] && a[0] == b[0] {
      StrLeTotal(a[1..], b[1..]);
    }
  }

  lemma {:induction false} StrLeTransitive(a: string, b: string, c: string)
    requires StrLe(a, b) && StrLe(b, c)
    ensures StrLe(a, c)
    decreases |a|
  {
    if a != [] && b != [] && c != [] && a[0] == b[0] && b[0] == c[0] {
      StrLeTransitive(a[1..], b[1..], c[1..]);
    }
  }

  lemma {:induction false} StrLeAntisymmetric(a: string, b: string)
    requires StrLe(a, b) && StrLe(b, a)
    ensures a == b
    decreases |a|
  {
    if a != [] && b != [] {
      StrLeAntisymmetric(a[1..], b[1..]);
      assert a == [a[0]] + a[1..] && b == [b[0]] + b[1..];
    }
  }

  /** A common prefix does not change the order. */
  lemma {:induction false} StrLeCommonPrefix(p: string, a: string, b: string)
    ensures StrLe(p + a, p + b) == StrLe(a, b)
    decreases |p|
  {
    if p != [] {
      var pa, pb := p + a, p + b;
      assert pa != [] && pb != [] && pa[0] == pb[0];
      assert StrLe(pa, pb) == StrLe(pa[1..], pb[1..]);
      assert pa[1..] == p[1..] + a;
      assert pb[1..] == p[1..] + b;
      StrLeCommonPrefix(p[1..], a, b);
    } else {
      assert p + a == a && p + b == b;
    }
  }

  predicate Sorted(s: seq<string>)
  {
    forall i, j :: 0 <= i < j < |s| ==> StrLe(s[i], s[j])
  }

  /** Every element of t is at least x, when x is at most every element of s
      and t holds the same elements as s. */
  lemma AllAtLeast(x: string, s: seq<string>, t: seq<string>)
    requires forall k :: 0 <= k < |s| ==> StrLe(x, s[k])
    requires multiset(t) == multiset(s)
    ensures forall k :: 0 <= k < |t| ==> StrLe(x, t[k])
  {
    forall k | 0 <= k < |t|
      ensures StrLe(x, t[k])
    {
      assert t[k] in multiset(t);
      assert t[k] in s;
    }
  }

  /** Inserts x into a sorted list before the first element it does not exceed. */
  function Insert(x: string, s: seq<string>): (r: seq<string>)
    requires Sorted(s)
    ensures Sorted(r)
    ensures multiset(r) == multiset(s) + multiset{x}
    decreases |s|
  {
    if s == [] then [x]
    else if StrLe(x, s[0]) then
      InsertFront(x, s);
      [x] + s
    else
      var rest := Insert(x, s[1..]);
      InsertBehind(x, s, rest);
      [s[0]] + rest
  }

  /** x at most the head of a sorted list goes in front of it. */
  lemma InsertFront(x: string, s: seq<string>)
    requires Sorted(s) && s != [] && StrLe(x, s[0])
    ensures Sorted([x] + s)
  {
    forall k | 0 <= k < |s| ensures StrLe(x, s[k]) {
      if k > 0 { StrLeTransitive(x, s[0], s[k]); }
    }
    assert forall k :: 1 <= k < |[x] + s| ==> ([x] + s)[k] == s[k - 1];
  }

  /** x above the head of a sorted list goes behind it: the head then stays in
      front of the rest with x inserted. */
  lemma InsertBehind(x: string, s: seq<string>, rest: seq<string>)
    requires Sorted(s) && s != [] && !StrLe(x, s[0])
    requires Sorted(rest) && multiset(rest) == multiset(s[1..]) + multiset{x}
    ensures Sorted([s[0]] + rest)
    ensures multiset([s[0]] + rest) == multiset(s) + multiset{x}
  {
    assert forall k :: 0 <= k < |s[1..] + [x]| ==> StrLe(s[0], (s[1..] + [x])[k]) by {
      StrLeTotal(x, s[0]);
    }
    assert multiset(rest) == multiset(s[1..] + [x]);
    AllAtLeast(s[0], s[1..] + [x], rest);
    assert s == [s[0]] + s[1..];
    assert forall k :: 1 <= k < |[s[0]] + rest| ==> ([s[0]] + rest)[k] == rest[k - 1];
  }

  /** Python's sorted() on a list of str: insertion sort, which for strings
      gives the same list as any stable sort. */
  function SortStrings(s: seq<string>): (r: seq<string>)
    ensures Sorted(r)
    ensures multiset(r) == multiset(s)
    decreases |s|
  {
    if s == [] then []
    else
      assert s == [s[0]] + s[1..];
      Insert(s[0], SortStrings(s[1..]))
  }

  /** Sorting two strings that are out of order swaps them. */
  lemma SortTwoSwaps(x: string, y: string)
    requires !StrLe(x, y)
    ensures SortStrings([x, y]) == [y, x]
  {
    assert [x, y][1..] == [y];
    assert [y][1..] == [];
    assert SortStrings([y]) == [y];
  }

  // ---------------------------------------------------------------------------
  // POSIX os.path
  // ---------------------------------------------------------------------------

  /** os.path.join(a, b): an absolute b replaces a; otherwise one '/' separates them. */
  function Join(a: string, b: string): string
  {
    if |b| > 0 && b[0] == '/' then b
    else if a == [] || a[|a| - 1] == '/' then a + b
    else a + "/" + b
  }

  /** Joining one directory with two relative names gives equal paths only for
      equal names. */
  lemma JoinInjective(dir: string, b1: string, b2: string)
    requires |b1| > 0 && b1[0] != '/' && |b2| > 0 && b2[0] != '/'
    requires Join(dir, b1) == Join(dir, b2)
    ensures b1 == b2
  {
    var p := if dir == [] || dir[|dir| - 1] == '/' then dir else dir + "/";
    assert Join(dir, b1) == p + b1 && Join(dir, b2) == p + b2;
    assert b1 == (p + b1)[|p|..];
  }

  predicate EndsWith(s: string, suffix: string)
  {
    |suffix| <= |s| && s[|s| - |suffix|..] == suffix
  }

  /** A joined path ends with the name joined onto the directory. */
  lemma JoinEndsWithName(dir: string, name: string)
    ensures EndsWith(Join(dir, name), name)
  {
    var p := Join(dir, name);
    if !(|name| > 0 && name[0] == '/') {
      var prefix := if dir == [] || dir[|dir| - 1] == '/' then dir else dir + "/";
      assert p == prefix + name;
      assert p[|p| - |name|..] == name;
    }
  }

  /** A suffix of a suffix is a suffix. */
  lemma EndsWithTransitive(s: string, t: string, u: string)
    requires EndsWith(s, t) && EndsWith(t, u)
    ensures EndsWith(s, u)
  {
    assert s[|s| - |u|..] == t[|t| - |u|..];
  }

  /** os.path.basename: the part after the last '/'. */
  function Basename(p: string): string
    decreases |p|
  {
    if p == [] || p[|p| - 1] == '/' then []
    else Basename(p[..|p| - 1]) + [p[|p| - 1]]
  }

  /** The base name is the tail of the path after its last '/'. */
  lemma {:induction false} BasenameIsLastPart(p: string)
    ensures var r := Basename(p);
      && '/' !in r
      && |r| <= |p| && r == p[|p| - |r|..]
      && (|r| < |p| ==> p[|p| - |r| - 1] == '/')
    decreases |p|
  {
    if p != [] && p[|p| - 1] != '/' {
      var init := p[..|p| - 1];
      BasenameIsLastPart(init);
      var r0 := Basename(init);
      var r := Basename(p);
      assert r == r0 + [p[|p| - 1]];
      assert '/' !in r;
      assert r == p[|p| - |r|..] by {
        assert p[|p| - |r|..] == init[|init| - |r0|..] + [p[|p| - 1]];
      }
      if |r| < |p| {
        assert p[|p| - |r| - 1] == init[|init| - |r0| - 1];
      }
    }
  }

  /** Index of the last '.' in s, or -1. */
  function LastDot(s: string): (k: int)
    ensures -1 <= k < |s|
    ensures k >= 0 ==> s[k] == '.'
    decreases |s|
  {
    if s == [] then -1
    else if s[|s| - 1] == '.' then |s| - 1
    else LastDot(s[..|s| - 1])
  }

  /** No '.' comes after the last one. */
  lemma {:induction false} NoDotAfterLast(s: string, j: int)
    requires LastDot(s) < j < |s|
    ensures s[j] != '.'
    decreases |s|
  {
    if s[|s| - 1] != '.' && j < |s| - 1 {
      NoDotAfterLast(s[..|s| - 1], j);
    }
  }

  /** Whether every character of s is a '.'. */
  predicate AllDots(s: string)
    decreases |s|
  {
    s == [] || (s[|s| - 1] == '.' && AllDots(s[..|s| - 1]))
  }

  /** A string with a character other than '.' is not all dots. */
  lemma {:induction false} VisibleIsNotAllDots(s: string, j: int)
    requires 0 <= j < |s| && s[j] != '.'
    ensures !AllDots(s)
    decreases |s|
  {
    if j < |s| - 1 {
      VisibleIsNotAllDots(s[..|s| - 1], j);
    }
  }

  /** os.path.splitext(name)[0] for a name without '/': the text before the last
      '.', unless every character before that '.' is itself a '.' (a hidden
      file such as ".mp4" has no extension). */
  function Stem(name: string): string
  {
    var k := LastDot(name);
    if k > 0 && !AllDots(name[..k]) then name[..k] else name
  }

  /** Removing a one-dot extension from a visible name gives the name back. */
  lemma StemDropsExtension(base: string, ext: string)
    requires |ext| >= 1 && ext[0] == '.' && '.' !in ext[1..]
    requires exists j :: 0 <= j < |base| && base[j] != '.'
    ensures Stem(base + ext) == base
  {
    var name := base + ext;
    var k := LastDot(name);
    assert name[|base|] == '.';
    if k < |base| {
      NoDotAfterLast(name, |base|);
    }
    var j :| 0 <= j < |base| && base[j] != '.';
    assert name[..k] == base;
    VisibleIsNotAllDots(base, j);
  }
}
