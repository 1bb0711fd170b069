/** The parts of Python's `str` API that the requirements parser relies on:
    `lower`, `capitalize`, `strip`, `split` on one character, `join`, `in` (substring test)
    and `find`.
    Case mapping is ASCII only and preserves length; `strip` removes every character
    that Python's `str.isspace` accepts. */
module Text {

  predicate IsUpper(c: char) { 'A' <= c <= 'Z' }

  /** Characters Python's `str.isspace()` accepts (and `str.strip()` therefore removes). */
  predicate IsSpace(c: char) {
    var n := c as int;
    (9 <= n <= 13) || (28 <= n <= 32) || n == 0x85 || n == 0xA0 || n == 0x1680
    || (0x2000 <= n <= 0x200A) || n == 0x2028 || n == 0x2029 || n == 0x202F
    || n == 0x205F || n == 0x3000
  }

  function LowerChar(c: char): (d: char)
    ensures !IsUpper(d)
    ensures IsSpace(d) <==> IsSpace(c)
  {
    if IsUpper(c) then (c as int + 32) as char else c
  }

  function UpperChar(c: char): char {
    if 'a' <= c <= 'z' then (c as int - 32) as char else c
  }

  /** `s.lower()`, one character at a time. */
  function Lower(s: string): string {
    seq(|s|, i requires 0 <= i < |s| => LowerChar(s[i]))
  }

  predicate IsLower(s: string) {
    forall c :: c in s ==> !IsUpper(c)
  }

  /** Lowercasing keeps the length and changes only the case of letters: characters
      that are not upper-case letters stay as they are, and every character keeps its
      upper-case form. Whatever is lowercased is lowercase, and lowercasing it again
      changes nothing. */
  lemma LowerIsLower(s: string)
    ensures |Lower(s)| == |s|
    ensures forall i :: 0 <= i < |s| && !IsUpper(s[i]) ==> Lower(s)[i] == s[i]
    ensures forall i :: 0 <= i < |s| ==> UpperChar(Lower(s)[i]) == UpperChar(s[i])
    ensures IsLower(Lower(s))
    ensures Lower(Lower(s)) == Lower(s)
  {
    forall c | c in Lower(s) ensures !IsUpper(c) {
      var i :| 0 <= i < |s| && Lower(s)[i] == c;
    }
  }

  /** `s.capitalize()`: first character upper-case, the rest lower-case. */
  function Capitalize(s: string): string {
    if s == [] then [] else [UpperChar(s[0])] + Lower(s[1..])
  }

  /** Capitalising keeps the length and changes only case: lowercased, the result is
      the lowercased input. The first character is upper-cased, everything after it is
      lower-case, and capitalising twice is capitalising once. */
  lemma {:induction false} CapitalizeOnlyChangesCase(s: string)
    ensures |Capitalize(s)| == |s|
    ensures s != [] ==> Capitalize(s)[0] == UpperChar(s[0])
    ensures Lower(Capitalize(s)) == Lower(s)
    ensures s != [] ==> IsLower(Capitalize(s)[1..])
    ensures Capitalize(Capitalize(s)) == Capitalize(s)
  {
    if s != [] {
      var r := Capitalize(s);
      assert r[1..] == Lower(s[1..]);
      LowerIsLower(s[1..]);
      LowerOfCapitalize(s);
      assert UpperChar(UpperChar(s[0])) == UpperChar(s[0]);
    }
  }

  /** Lowercasing undoes the upper-casing of the first character. */
  lemma {:induction false} LowerOfCapitalize(s: string)
    requires s != []
    ensures Lower(Capitalize(s)) == Lower(s)
  {
    var r := Capitalize(s);
    assert LowerChar(UpperChar(s[0])) == LowerChar(s[0]);
    forall i | 0 <= i < |s| ensures Lower(r)[i] == Lower(s)[i] {
      if i > 0 {
        assert r[i] == Lower(s[1..])[i - 1] == LowerChar(s[i]);
      }
    }
  }

  /** `w` occurs in `s` starting at position `i`. */
  predicate OccursAt(s: string, w: string, i: int) {
    0 <= i <= |s| - |w| && s[i..i + |w|] == w
  }

  /** Python's `w in s`: `w` occurs in `s` as a contiguous block. */
  predicate Contains(s: string, w: string) {
    exists i | 0 <= i <= |s| - |w| :: OccursAt(s, w, i)
  }

  /** `s.find(w)`: the first position where `w` occurs in `s`, or -1. */
  function Find(s: string, w: string): (r: int)
    ensures r < 0 ==> r == -1 && !Contains(s, w)
    ensures 0 <= r ==> OccursAt(s, w, r)
    ensures 0 <= r ==> forall j :: 0 <= j < r ==> !OccursAt(s, w, j)
    decreases |s|
  {
    if |s| < |w| then -1
    else if s[..|w|] == w then
      assert OccursAt(s, w, 0);
      0
    else
      var k := Find(s[1..], w);
      assert forall j {:trigger OccursAt(s, w, j)} :: 1 <= j ==> (OccursAt(s, w, j) <==> OccursAt(s[1..], w, j - 1)) by {
        forall j | 1 <= j ensures OccursAt(s, w, j) <==> OccursAt(s[1..], w, j - 1) {
          if j <= |s| - |w| { assert s[1..][j - 1..j - 1 + |w|] == s[j..j + |w|]; }
        }
      }
      assert !OccursAt(s, w, 0);
      if k < 0 then -1 else k + 1
  }

  /** `w in s` holds exactly when `s.find(w)` finds a position, and that position
      leaves room for `w`. */
  lemma FindIffContains(s: string, w: string)
    ensures Contains(s, w) <==> Find(s, w) >= 0
    ensures Contains(s, w) ==> Find(s, w) <= |s| - |w|
  {
    var r := Find(s, w);
    if r >= 0 {
      assert OccursAt(s, w, r);
    }
  }

  /** An occurrence inside the block `s[a..b]` is an occurrence in `s`, shifted by `a`. */
  lemma OccursInBlock(s: string, a: int, b: int, w: string, p: int)
    requires 0 <= a <= b <= |s|
    ensures OccursAt(s[a..b], w, p) <==> 0 <= p && a + p + |w| <= b && OccursAt(s, w, a + p)
  {
    if 0 <= p && a + p + |w| <= b {
      var t, u := s[a..b][p..p + |w|], s[a + p..a + p + |w|];
      forall i | 0 <= i < |w| ensures t[i] == u[i] {
        assert t[i] == s[a..b][p + i];
      }
      assert t == u;
    }
  }

  /** `s.lstrip()`: drops the leading white space. */
  function StripLeft(s: string): (r: string)
    ensures |r| <= |s|
  {
    if s != [] && IsSpace(s[0]) then StripLeft(s[1..]) else s
  }

  /** `s.lstrip()` is a suffix of `s`; what it drops is white space and it does not
      start with white space. */
  lemma {:induction false} StripLeftSuffix(s: string)
    ensures var r := StripLeft(s);
      r == s[|s| - |r|..]
      && (forall i :: 0 <= i < |s| - |r| ==> IsSpace(s[i]))
      && (r == [] || !IsSpace(r[0]))
  {
    if s != [] && IsSpace(s[0]) {
      StripLeftSuffix(s[1..]);
    }
  }

  /** `s.rstrip()`: drops the trailing white space. */
  function StripRight(s: string): (r: string)
    ensures |r| <= |s|
  {
    if s != [] && IsSpace(s[|s| - 1]) then StripRight(s[..|s| - 1]) else s
  }

  /** `s.rstrip()` is a prefix of `s`; what it drops is white space and it does not
      end with white space. */
  lemma {:induction false} StripRightPrefix(s: string)
    ensures var r := StripRight(s);
      r == s[..|r|]
      && (forall i :: |r| <= i < |s| ==> IsSpace(s[i]))
      && (r == [] || !IsSpace(r[|r| - 1]))
  {
    if s != [] && IsSpace(s[|s| - 1]) {
      StripRightPrefix(s[..|s| - 1]);
    }
  }

  /** Where `Strip(s)` starts inside `s`. */
  function StripStart(s: string): nat {
    |s| - |StripLeft(s)|
  }

  /** `s.strip()`: white space removed at both ends. */
  function Strip(s: string): (r: string)
    ensures |r| <= |s|
  {
    StripRight(StripLeft(s))
  }

  /** `s.strip()` is the block of `s` left after removing white space at both ends:
      everything removed is white space and the block neither starts nor ends with it. */
  lemma StripBlock(s: string)
    ensures var r, a := Strip(s), StripStart(s);
      a + |r| <= |s| && r == s[a..a + |r|]
      && (forall i :: 0 <= i < a ==> IsSpace(s[i]))
      && (forall i :: a + |r| <= i < |s| ==> IsSpace(s[i]))
      && (r == [] || (!IsSpace(r[0]) && !IsSpace(r[|r| - 1])))
      && (forall c :: c in r ==> c in s)
  {
    StripLeftSuffix(s);
    StripRightPrefix(StripLeft(s));
  }

  /** A keyword made only of non-white-space characters. */
  predicate IsWord(w: string) {
    w != [] && forall c :: c in w ==> !IsSpace(c)
  }

  /** Stripping never cuts into a word: if the lowercase form of `s` contains `w`,
      so does the lowercase form of `s.strip()`. */
  lemma StripKeepsWord(s: string, w: string)
    requires IsWord(w)
    requires Contains(Lower(s), w)
    ensures Contains(Lower(Strip(s)), w)
  {
    var p :| OccursAt(Lower(s), w, p);
    StripKeepsOccurrence(s, w, p);
  }

  /** The occurrence of a word at `p` in the lowercase form of `s` lies inside the
      stripped block, at the same place relative to its start. */
  lemma StripKeepsOccurrence(s: string, w: string, p: int)
    requires IsWord(w)
    requires OccursAt(Lower(s), w, p)
    ensures OccursAt(Lower(Strip(s)), w, p - StripStart(s))
  {
    var r := Strip(s);
    var a := StripStart(s);
    StripBlock(s);
    OccurrenceInsideStrip(s, w, p);
    LowerSlice(s, a, a + |r|);
    OccursInBlock(Lower(s), a, a + |r|, w, p - a);
  }

  /** Lowercasing commutes with taking a block. */
  lemma LowerSlice(s: string, i: nat, j: nat)
    requires i <= j <= |s|
    ensures Lower(s[i..j]) == Lower(s)[i..j]
  {
  }

  /** An occurrence of a word in the lowercase form of `s` avoids the white space
      that stripping removes at either end. */
  lemma OccurrenceInsideStrip(s: string, w: string, p: int)
    requires IsWord(w)
    requires OccursAt(Lower(s), w, p)
    ensures StripStart(s) <= p && p + |w| <= StripStart(s) + |Strip(s)|
  {
    StripBlock(s);
    assert forall k :: p <= k < p + |w| ==> !IsSpace(s[k]) by {
      forall k | p <= k < p + |w| ensures !IsSpace(s[k]) {
        assert Lower(s)[p..p + |w|][k - p] == w[k - p];
        assert w[k - p] in w;
      }
    }
    assert !IsSpace(s[p]) && !IsSpace(s[p + |w| - 1]);
  }

  /** Python's `sep.join(parts)` for a one-character separator. */
  function Join(parts: seq<string>, sep: char): string
    requires |parts| >= 1
  {
    if |parts| == 1 then parts[0] else parts[0] + [sep] + Join(parts[1..], sep)
  }

  /** `sep.join(items)`. */
  function JoinWith(items: seq<string>, sep: string): string {
    if items == [] then []
    else if |items| == 1 then items[0]
    else items[0] + sep + JoinWith(items[1..], sep)
  }

  /** Where the k-th item starts in `sep.join(items)`: after each earlier item and the
      separator that follows it. */
  function JoinOffset(items: seq<string>, sep: string, k: nat): nat
    requires k <= |items|
  {
    if k == 0 then 0 else |items[0]| + |sep| + JoinOffset(items[1..], sep, k - 1)
  }

  /** The summed length of the items. */
  function TotalLength(items: seq<string>): nat {
    if items == [] then 0 else |items[0]| + TotalLength(items[1..])
  }

  /** `sep.join(items)` lays the items out in list order with `sep` between neighbours:
      the k-th item sits at its offset, followed by the separator unless it is the last. */
  lemma {:induction false} JoinWithShowsItems(items: seq<string>, sep: string, k: nat)
    requires k < |items|
    ensures OccursAt(JoinWith(items, sep), items[k], JoinOffset(items, sep, k))
    ensures k + 1 < |items| ==> OccursAt(JoinWith(items, sep), sep, JoinOffset(items, sep, k) + |items[k]|)
    ensures Contains(JoinWith(items, sep), items[k])
  {
    if k == 0 {
      JoinWithHead(items, sep);
    } else {
      JoinWithShowsItems(items[1..], sep, k - 1);
      var p := JoinOffset(items[1..], sep, k - 1);
      JoinWithShift(items, sep, items[k], p);
      if k + 1 < |items| {
        JoinWithShift(items, sep, sep, p + |items[k]|);
      }
    }
  }

  /** `sep.join(items)` starts with the first item, and the separator follows it when
      more items come. */
  lemma {:induction false} JoinWithHead(items: seq<string>, sep: string)
    requires items != []
    ensures OccursAt(JoinWith(items, sep), items[0], 0)
    ensures 1 < |items| ==> OccursAt(JoinWith(items, sep), sep, |items[0]|)
  {
    var j := JoinWith(items, sep);
    assert j[..|items[0]|] == items[0];
    if 1 < |items| {
      assert j == items[0] + sep + JoinWith(items[1..], sep);
      assert j[|items[0]|..|items[0]| + |sep|] == sep;
    }
  }

  /** What occurs in the join of the later items occurs in the whole join, shifted past
      the first item and its separator. */
  lemma {:induction false} JoinWithShift(items: seq<string>, sep: string, w: string, p: int)
    requires 1 < |items| && OccursAt(JoinWith(items[1..], sep), w, p)
    ensures OccursAt(JoinWith(items, sep), w, |items[0]| + |sep| + p)
  {
    var j, tail := JoinWith(items, sep), JoinWith(items[1..], sep);
    var off := |items[0]| + |sep|;
    assert j == items[0] + sep + tail;
    assert j[off..|j|] == tail;
    OccursInBlock(j, off, |j|, w, p);
  }

  /** `sep.join(items)` holds the items and one separator between each two neighbours,
      and nothing else. */
  lemma {:induction false} JoinWithLength(items: seq<string>, sep: string)
    requires items != []
    ensures |JoinWith(items, sep)| == TotalLength(items) + (|items| - 1) * |sep|
  {
    if 1 < |items| {
      JoinWithLength(items[1..], sep);
    }
  }

  /** With a one-character separator, `sep.join` is the join that `split` undoes. */
  lemma {:induction false} JoinWithOneChar(items: seq<string>, c: char)
    requires items != []
    ensures JoinWith(items, [c]) == Join(items, c)
  {
    if 1 < |items| {
      JoinWithOneChar(items[1..], c);
    }
  }

  /** `s.split(sep)` for a one-character separator: at least one piece, no piece
      holds the separator, and joining the pieces with it gives `s` back. */
  function Split(s: string, sep: char): (r: seq<string>)
    ensures |r| >= 1
    ensures forall i :: 0 <= i < |r| ==> sep !in r[i]
    ensures forall i, c :: 0 <= i < |r| && c in r[i] ==> c in s
    ensures Join(r, sep) == s
  {
    if s == [] then [[]]
    else
      var rest := Split(s[1..], sep);
      if s[0] == sep then
        assert ([[]] + rest)[1..] == rest;
        assert forall c :: c in s[1..] ==> c in s;
        [[]] + rest
      else
        var r := [[s[0]] + rest[0]] + rest[1..];
        assert r[1..] == rest[1..];
        assert forall c :: c in s[1..] ==> c in s;
        assert forall c :: c in r[0] ==> c == s[0] || c in rest[0];
        assert |rest| > 1 ==> Join(rest, sep) == rest[0] + [sep] + Join(rest[1..], sep);
        r
  }

  /** Splitting a string that holds no separator yields that string alone. */
  lemma {:induction false} SplitNoSeparator(s: string, sep: char)
    requires sep !in s
    ensures Split(s, sep) == [s]
  {
    if s != [] {
      SplitNoSeparator(s[1..], sep);
    }
  }

  /** Splitting `x + [sep] + y`, where `x` holds no separator, yields `x` followed by
      the pieces of `y`. */
  lemma {:induction false} SplitAtSeparator(x: string, sep: char, y: string)
    requires sep !in x
    ensures Split(x + [sep] + y, sep) == [x] + Split(y, sep)
  {
    if x == [] {
      assert ([sep] + y)[1..] == y;
    } else {
      assert (x + [sep] + y)[1..] == x[1..] + [sep] + y;
      SplitAtSeparator(x[1..], sep, y);
      assert [x[0]] + x[1..] == x;
    }
  }

  /** Splitting inverts joining when no piece holds the separator, so together with
      the contract of Split the two are mutually inverse. */
  lemma {:induction false} SplitJoin(parts: seq<string>, sep: char)
    requires |parts| >= 1
    requires forall i :: 0 <= i < |parts| ==> sep !in parts[i]
    ensures Split(Join(parts, sep), sep) == parts
  {
    if |parts| == 1 {
      SplitNoSeparator(parts[0], sep);
    } else {
      SplitJoin(parts[1..], sep);
      SplitAtSeparator(parts[0], sep, Join(parts[1..], sep));
      assert [parts[0]] + parts[1..] == parts;
    }
  }
}
