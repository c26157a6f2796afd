/**
  The Python `str` operations the pipeline relies on, written out over `seq<char>`:
  `strip`, `split()` on whitespace, `split(c)`, `sep.join`, `replace`, slicing,
  decimal formatting of integers and `int(...)` parsing.
*/
module Text {
  import opened Wrappers

  type String = seq<char>

  /** The characters Python's `str.isspace` (and so `strip()` and `split()`) treats as whitespace. */
  predicate IsSpace(c: char) {
    ('\U{0009}' <= c && c <= '\U{000D}') || ('\U{001C}' <= c && c <= '\U{0020}')
    || c == '\U{0085}' || c == '\U{00A0}' || c == '\U{1680}'
    || ('\U{2000}' <= c && c <= '\U{200A}')
    || c == '\U{2028}' || c == '\U{2029}' || c == '\U{202F}' || c == '\U{205F}' || c == '\U{3000}'
  }

  predicate StartsWith<T(==)>(s: seq<T>, prefix: seq<T>) {
    |prefix| <= |s| && s[..|prefix|] == prefix
  }

  predicate EndsWith<T(==)>(s: seq<T>, suffix: seq<T>) {
    |suffix| <= |s| && s[|s| - |suffix|..] == suffix
  }

  // ---------------------------------------------------------------- strip

  function LStrip(s: String): (r: String)
    ensures |r| <= |s| && r == s[|s| - |r|..]
    ensures r != [] ==> !IsSpace(r[0])
    ensures forall i :: 0 <= i < |s| - |r| ==> IsSpace(s[i])
  {
    if s != [] && IsSpace(s[0]) then
      var r := LStrip(s[1..]);
      DropFirstStep(s, s[1..], r, IsSpace);
      r
    else s
  }

  function RStrip(s: String): (r: String)
    ensures |r| <= |s| && r == s[..|r|]
    ensures r != [] ==> !IsSpace(r[|r| - 1])
    ensures forall i :: |r| <= i < |s| ==> IsSpace(s[i])
  {
    if s != [] && IsSpace(s[|s| - 1]) then
      var r := RStrip(s[..|s| - 1]);
      DropLastStep(s, s[..|s| - 1], r, IsSpace);
      r
    else s
  }

  /** A suffix of `s[1..]` after a dropped run is one of `s`, after a run one longer when `s[0]` is dropped too. */
  lemma DropFirstStep<T>(s: seq<T>, t: seq<T>, r: seq<T>, p: T -> bool)
    requires s != [] && p(s[0]) && t == s[1..]
    requires |r| <= |t| && r == t[|t| - |r|..]
    requires forall i :: 0 <= i < |t| - |r| ==> p(t[i])
    ensures r == s[|s| - |r|..]
    ensures forall i :: 0 <= i < |s| - |r| ==> p(s[i])
  {
    forall i | 0 <= i < |s| - |r| ensures p(s[i]) {
      if i > 0 {
        assert s[i] == t[i - 1];
      }
    }
  }

  /** The mirror image of `DropFirstStep` at the end of `s`. */
  lemma DropLastStep<T>(s: seq<T>, t: seq<T>, r: seq<T>, p: T -> bool)
    requires s != [] && p(s[|s| - 1]) && t == s[..|s| - 1]
    requires |r| <= |t| && r == t[..|r|]
    requires forall i :: |r| <= i < |t| ==> p(t[i])
    ensures r == s[..|r|]
    ensures forall i :: |r| <= i < |s| ==> p(s[i])
  {
    forall i | |r| <= i < |s| ensures p(s[i]) {
      if i < |s| - 1 {
        assert s[i] == t[i];
      }
    }
  }

  /** Python's `s.strip()`: neither end of the result is whitespace. */
  function Strip(s: String): (r: String)
    ensures |r| <= |s|
    ensures r != [] ==> !IsSpace(r[0]) && !IsSpace(r[|r| - 1])
  {
    RStrip(LStrip(s))
  }

  /** Stripping a string that starts and ends with non-whitespace changes nothing. */
  lemma StripNoEdgeSpace(s: String)
    requires s != [] ==> !IsSpace(s[0]) && !IsSpace(s[|s| - 1])
    ensures Strip(s) == s
  {
  }

  // ---------------------------------------------------------------- split() on whitespace

  /** A word as `split()` yields it: non-empty and free of whitespace. */
  predicate IsWord(w: String) {
    w != [] && forall i :: 0 <= i < |w| ==> !IsSpace(w[i])
  }

  /** Length of the leading run of non-whitespace characters. */
  function WordLen(s: String): (n: nat)
    ensures n <= |s|
    ensures forall i :: 0 <= i < n ==> !IsSpace(s[i])
    ensures n < |s| ==> IsSpace(s[n])
  {
    if s == [] || IsSpace(s[0]) then 0 else 1 + WordLen(s[1..])
  }

  /** Python's `s.split()`: the maximal runs of non-whitespace, in order. */
  function Words(s: String): (ws: seq<String>)
    ensures forall w :: w in ws ==> IsWord(w)
    decreases |s|
  {
    if s == [] then []
    else if IsSpace(s[0]) then Words(s[1..])
    else
      var n := WordLen(s);
      [s[..n]] + Words(s[n..])
  }

  // ---------------------------------------------------------------- join

  /** Python's `sep.join(parts)`. */
  function Join(sep: String, parts: seq<String>): String
  {
    if parts == [] then []
    else if |parts| == 1 then parts[0]
    else parts[0] + sep + Join(sep, parts[1..])
  }

  lemma {:induction false} JoinConcat(sep: String, a: seq<String>, b: seq<String>)
    requires a != [] && b != []
    ensures Join(sep, a + b) == Join(sep, a) + sep + Join(sep, b)
  {
    if |a| == 1 {
      assert (a + b)[1..] == b;
    } else {
      assert (a + b)[1..] == a[1..] + b;
      JoinConcat(sep, a[1..], b);
    }
  }

  /** Joining a joined run in place is the same as joining its parts directly. */
  lemma JoinFlatten(sep: String, xs: seq<String>, ys: seq<String>, zs: seq<String>)
    requires ys != []
    ensures Join(sep, xs + [Join(sep, ys)] + zs) == Join(sep, xs + ys + zs)
  {
    var y := Join(sep, ys);
    if xs == [] && zs == [] {
      assert xs + [y] + zs == [y];
      assert xs + ys + zs == ys;
    } else if zs == [] {
      assert xs + [y] + zs == xs + [y];
      assert xs + ys + zs == xs + ys;
      JoinConcat(sep, xs, [y]);
      JoinConcat(sep, xs, ys);
    } else if xs == [] {
      assert xs + [y] + zs == [y] + zs;
      assert xs + ys + zs == ys + zs;
      JoinConcat(sep, [y], zs);
      JoinConcat(sep, ys, zs);
    } else {
      assert xs + [y] + zs == xs + ([y] + zs);
      assert xs + ys + zs == xs + (ys + zs);
      JoinConcat(sep, xs, [y] + zs);
      JoinConcat(sep, [y], zs);
      JoinConcat(sep, xs, ys + zs);
      JoinConcat(sep, ys, zs);
    }
  }

  /** A non-empty join starts with its first part and ends with its last part. */
  lemma JoinEdges(sep: String, ws: seq<String>)
    requires ws != []
    ensures |Join(sep, ws)| >= |ws[0]| && Join(sep, ws)[..|ws[0]|] == ws[0]
    ensures var j, l := Join(sep, ws), ws[|ws| - 1]; |j| >= |l| && j[|j| - |l|..] == l
  {
    JoinStart(sep, ws);
    JoinEnd(sep, ws);
  }

  lemma JoinStart(sep: String, ws: seq<String>)
    requires ws != []
    ensures |Join(sep, ws)| >= |ws[0]| && Join(sep, ws)[..|ws[0]|] == ws[0]
  {
    if |ws| > 1 {
      assert Join(sep, ws) == ws[0] + (sep + Join(sep, ws[1..]));
    }
  }

  lemma {:induction false} JoinEnd(sep: String, ws: seq<String>)
    requires ws != []
    ensures var j, l := Join(sep, ws), ws[|ws| - 1]; |j| >= |l| && j[|j| - |l|..] == l
  {
    if |ws| > 1 {
      var rest := Join(sep, ws[1..]);
      JoinEnd(sep, ws[1..]);
      assert ws[1..][|ws[1..]| - 1] == ws[|ws| - 1];
      assert Join(sep, ws) == (ws[0] + sep) + rest;
      SuffixOfConcat(ws[0] + sep, rest, ws[|ws| - 1]);
    }
  }

  /** A suffix of `b` is a suffix of `a + b`. */
  lemma SuffixOfConcat<T>(a: seq<T>, b: seq<T>, l: seq<T>)
    requires |l| <= |b| && b[|b| - |l|..] == l
    ensures var ab := a + b; |l| <= |ab| && ab[|ab| - |l|..] == l
  {
    var ab := a + b;
    assert ab[|ab| - |l|..] == b[|b| - |l|..];
  }

  /** `split()` undoes a space-join of words: the round trip the chunkers depend on. */
  lemma {:induction false} WordsOfJoin(ws: seq<String>)
    requires forall w :: w in ws ==> IsWord(w)
    ensures Words(Join(" ", ws)) == ws
  {
    if ws == [] {
    } else if |ws| == 1 {
      WordsOfWordThen(ws[0], []);
      assert ws[0] + [] == ws[0];
    } else {
      var rest := Join(" ", ws[1..]);
      WordsOfJoin(ws[1..]);
      assert Join(" ", ws) == ws[0] + (" " + rest);
      WordsOfWordThen(ws[0], " " + rest);
      assert (" " + rest)[1..] == rest;
    }
  }

  lemma WordsOfWordThen(w: String, rest: String)
    requires IsWord(w)
    requires rest == [] || IsSpace(rest[0])
    ensures Words(w + rest) == [w] + Words(rest)
  {
    var s := w + rest;
    assert forall i :: 0 <= i < |w| ==> s[i] == w[i] && !IsSpace(s[i]);
    assert |w| < |s| ==> IsSpace(s[|w|]);
    assert WordLen(s) == |w|;
    assert s[..|w|] == w;
    assert s[|w|..] == rest;
  }

  /** A space-join of words has no whitespace at either end, so `strip()` leaves it alone. */
  lemma JoinWordsStripped(ws: seq<String>)
    requires forall w :: w in ws ==> IsWord(w)
    ensures Strip(Join(" ", ws)) == Join(" ", ws)
  {
    if ws != [] {
      JoinEdges(" ", ws);
      var j := Join(" ", ws);
      assert ws[0] in ws && ws[|ws| - 1] in ws;
      assert j[0] == ws[0][0];
      assert j[|j| - 1] == ws[|ws| - 1][|ws[|ws| - 1]| - 1];
      StripNoEdgeSpace(j);
    }
  }

  // ---------------------------------------------------------------- split(c)

  /** Index of the first `c` in `s`, or `|s|` when there is none. */
  function IndexOf(s: String, c: char): (i: nat)
    ensures i <= |s|
    ensures i < |s| ==> s[i] == c
    ensures forall j :: 0 <= j < i ==> s[j] != c
  {
    if s == [] || s[0] == c then 0 else 1 + IndexOf(s[1..], c)
  }

  /** Python's `s.split(c)`: joining the parts back with `c` gives `s`. */
  function SplitOn(s: String, c: char): (parts: seq<String>)
    ensures |parts| >= 1
    ensures forall p :: p in parts ==> c !in p
    ensures Join([c], parts) == s
    decreases |s|
  {
    var i := IndexOf(s, c);
    if i == |s| then
      [s]
    else
      var rest := SplitOn(s[i + 1..], c);
      assert ([s[..i]] + rest)[1..] == rest;
      assert s == s[..i] + [c] + s[i + 1..];
      [s[..i]] + rest
  }

  /** Splitting a join of `c`-free parts at `c` gives the parts back. */
  lemma {:induction false} SplitOnJoin(parts: seq<String>, c: char)
    requires parts != [] && forall p :: p in parts ==> c !in p
    ensures SplitOn(Join([c], parts), c) == parts
  {
    assert parts[0] in parts;
    if |parts| == 1 {
      IndexOfAbsent(parts[0], c);
    } else {
      assert forall p :: p in parts[1..] ==> p in parts;
      SplitOnJoin(parts[1..], c);
      SplitOnCons(parts[0], Join([c], parts[1..]), c);
      assert parts == [parts[0]] + parts[1..];
    }
  }

  /** A `c`-free text has no `c` to find. */
  lemma IndexOfAbsent(s: String, c: char)
    requires c !in s
    ensures IndexOf(s, c) == |s|
  {
  }

  /** Splitting `head + [c] + tail` for a `c`-free head cuts at that `c`. */
  lemma SplitOnCons(head: String, tail: String, c: char)
    requires c !in head
    ensures SplitOn(head + [c] + tail, c) == [head] + SplitOn(tail, c)
  {
    var s := head + [c] + tail;
    assert s[|head|] == c;
    assert forall j :: 0 <= j < |head| ==> s[j] == head[j];
    assert IndexOf(s, c) == |head|;
    assert s[..|head|] == head;
    assert s[|head| + 1..] == tail;
  }

  /** `sub` occurs in `s` starting at index `i`. */
  predicate OccursAt(s: String, sub: String, i: int) {
    0 <= i <= |s| - |sub| && s[i..i + |sub|] == sub
  }

  /** Python's `sub in s` for strings. */
  predicate Contains(s: String, sub: String) {
    exists i :: 0 <= i <= |s| && OccursAt(s, sub, i)
  }

  /** `s.split(c)[0] if c in s else s`: the text before the first `c`. */
  function BeforeFirst(s: String, c: char): (r: String)
    ensures c !in r
    ensures r == s[..IndexOf(s, c)]
  {
    if c in s then SplitOn(s, c)[0] else s
  }

  /** `s.split(c)[-1]`: the text after the last `c`, a suffix of `s`. */
  function AfterLast(s: String, c: char): (r: String)
    ensures c !in r
    ensures EndsWith(s, r)
    ensures c !in s ==> r == s
  {
    var parts := SplitOn(s, c);
    JoinEdges([c], parts);
    parts[|parts| - 1]
  }

  /** When `s` holds a `c`, the text after the last `c` directly follows one. */
  lemma AfterLastSeparated(s: String, c: char)
    requires c in s
    ensures var r := AfterLast(s, c); |r| < |s| && s[|s| - |r| - 1] == c
  {
    var parts := SplitOn(s, c);
    var n := |parts|;
    var init, last := parts[..n - 1], parts[n - 1];
    assert parts == init + [last];
    JoinConcat([c], init, [last]);
    assert s == Join([c], init) + [c] + last;
  }

  /** `r` is the last `c`-separated segment of `s`: a `c`-free suffix, after a `c` when there is one, else all of `s`. */
  predicate LastSegment(s: String, c: char, r: String) {
    && c !in r && EndsWith(s, r)
    && (c in s ==> |r| < |s| && s[|s| - |r| - 1] == c)
    && (c !in s ==> r == s)
  }

  /** The text after the last `c` is the last segment. */
  lemma AfterLastShape(s: String, c: char)
    ensures LastSegment(s, c, AfterLast(s, c))
  {
    if c in s {
      AfterLastSeparated(s, c);
    }
  }

  // ---------------------------------------------------------------- replace

  /** Python's `s.replace(pat, rep)`: left-to-right, non-overlapping, every occurrence. */
  function ReplaceAll(s: String, pat: String, rep: String): String
    requires pat != []
    decreases |s|
  {
    if |s| < |pat| then s
    else if s[..|pat|] == pat then rep + ReplaceAll(s[|pat|..], pat, rep)
    else [s[0]] + ReplaceAll(s[1..], pat, rep)
  }

  /** Replacing one character by another is a pointwise substitution. */
  lemma {:induction false} ReplaceChar(s: String, c: char, d: char)
    ensures |ReplaceAll(s, [c], [d])| == |s|
    ensures forall i :: 0 <= i < |s| ==> ReplaceAll(s, [c], [d])[i] == (if s[i] == c then d else s[i])
  {
    if s != [] {
      ReplaceChar(s[1..], c, d);
    }
  }

  /** `s` with every `c` deleted: the reference for `s.replace(c, "")`. */
  function Without(s: String, c: char): (r: String)
    ensures c !in r
    ensures |r| <= |s|
  {
    if s == [] then [] else (if s[0] == c then [] else [s[0]]) + Without(s[1..], c)
  }

  /** Deleting works piece by piece, so the kept characters stay in their order. */
  lemma {:induction false} WithoutConcat(a: String, b: String, c: char)
    ensures Without(a + b, c) == Without(a, c) + Without(b, c)
  {
    if a != [] {
      assert (a + b)[1..] == a[1..] + b;
      WithoutConcat(a[1..], b, c);
    } else {
      assert a + b == b;
    }
  }

  /** Exactly the occurrences of `c` go; every other character keeps its multiplicity. */
  lemma {:induction false} WithoutMultiset(s: String, c: char)
    ensures multiset(Without(s, c)) == multiset(s)[c := 0]
  {
    if s != [] {
      WithoutMultiset(s[1..], c);
      assert s == [s[0]] + s[1..];
      assert multiset(s) == multiset([s[0]]) + multiset(s[1..]);
    }
  }

  lemma {:induction false} ReplaceByEmptyIsWithout(s: String, c: char)
    ensures ReplaceAll(s, [c], []) == Without(s, c)
  {
    if s != [] {
      ReplaceByEmptyIsWithout(s[1..], c);
    }
  }

  /** A string with no occurrence of the pattern is left as it is. */
  lemma {:induction false} ReplaceAbsent(s: String, c: char, rep: String)
    requires c !in s
    ensures ReplaceAll(s, [c], rep) == s
  {
    if s != [] {
      assert s[0] != c;
      ReplaceAbsent(s[1..], c, rep);
    }
  }

  /** When `s` starts with `pat`, `s.replace(pat, rep)` starts with `rep`. */
  lemma ReplaceAtStart(s: String, pat: String, rep: String)
    requires pat != [] && StartsWith(s, pat)
    ensures StartsWith(ReplaceAll(s, pat, rep), rep)
  {
  }

  // ---------------------------------------------------------------- slicing

  /** Python's `s[:n]` for `n >= 0`. */
  function Take<T>(s: seq<T>, n: nat): (r: seq<T>)
    ensures |r| == if n <= |s| then n else |s|
    ensures StartsWith(s, r)
  {
    if n <= |s| then s[..n] else s
  }

  /** Python's `s[lo:hi]` for `lo >= 0`; a negative `hi` counts from the end. */
  function PySlice<T>(s: seq<T>, lo: nat, hi: int): (r: seq<T>)
    ensures |r| <= |s|
    ensures 0 <= hi ==> |r| <= if lo <= hi then hi - lo else 0
    ensures lo <= hi <= |s| ==> r == s[lo..hi]
    ensures lo == 0 ==> r == s[..|r|]
  {
    var h := if hi < 0 then (if hi + |s| < 0 then 0 else hi + |s|) else (if hi > |s| then |s| else hi);
    var l := if lo > |s| then |s| else lo;
    if h <= l then [] else s[l..h]
  }

  // ---------------------------------------------------------------- case

  function LowerChar(c: char): char {
    if 'A' <= c && c <= 'Z' then (c as int + 32) as char else c
  }

  /** Python's `s.lower()` restricted to ASCII letters. */
  function Lower(s: String): (r: String)
    ensures |r| == |s|
    ensures forall i :: 0 <= i < |s| ==> r[i] == LowerChar(s[i])
  {
    if s == [] then [] else [LowerChar(s[0])] + Lower(s[1..])
  }

  // ---------------------------------------------------------------- integers

  predicate IsDigit(c: char) { '0' <= c && c <= '9' }

  function DigitChar(d: nat): (c: char)
    requires d < 10
    ensures IsDigit(c) && c as int - '0' as int == d
  {
    (d + '0' as int) as char
  }

  /** Decimal digits of `n`, as `str(n)` prints them. */
  function NatToString(n: nat): (r: String)
    ensures r != [] && forall i :: 0 <= i < |r| ==> IsDigit(r[i])
  {
    if n < 10 then [DigitChar(n)] else NatToString(n / 10) + [DigitChar(n % 10)]
  }

  /** `str(i)` / `f"{i}"` for an integer. */
  function IntToString(i: int): String {
    if i < 0 then "-" + NatToString(-i) else NatToString(i)
  }

  function DigitValue(c: char): (d: nat)
    requires IsDigit(c)
    ensures d < 10
  {
    c as int - '0' as int
  }

  /** The value of a string of decimal digits. */
  function DigitsValue(ds: String): nat
    requires forall i :: 0 <= i < |ds| ==> IsDigit(ds[i])
  {
    if ds == [] then 0 else DigitsValue(ds[..|ds| - 1]) * 10 + DigitValue(ds[|ds| - 1])
  }

  lemma {:induction false} DigitsOfNat(n: nat)
    ensures DigitsValue(NatToString(n)) == n
  {
    if n >= 10 {
      DigitsOfNat(n / 10);
      var s := NatToString(n / 10) + [DigitChar(n % 10)];
      assert s[..|s| - 1] == NatToString(n / 10);
    }
  }

  predicate AllDigits(s: String) {
    s != [] && forall i :: 0 <= i < |s| ==> IsDigit(s[i])
  }

  /**
    Python's `int(s)`: surrounding whitespace, an optional sign, then decimal digits;
    anything else raises `ValueError`, modelled as `None`.
  */
  function ParseInt(s: String): (r: Option<int>)
    ensures r.Some? ==> Strip(s) != []
  {
    var t := Strip(s);
    if t == [] then None
    else if (t[0] == '-' || t[0] == '+') && AllDigits(t[1..]) then
      var v: int := DigitsValue(t[1..]);
      Some(if t[0] == '-' then -v else v)
    else if AllDigits(t) then Some(DigitsValue(t))
    else None
  }

  /** `int(str(i)) == i`. */
  lemma ParseIntOfString(i: int)
    ensures ParseInt(IntToString(i)) == Some(i)
  {
    var s := IntToString(i);
    IntStringStripped(i);
    if i < 0 {
      var ds := NatToString(-i);
      assert s == ['-'] + ds;
      assert s[1..] == ds;
      DigitsOfNat(-i);
    } else {
      DigitsOfNat(i);
    }
  }

  /** `str(i)` has no whitespace to strip and starts with `-` exactly when `i` is negative. */
  lemma IntStringStripped(i: int)
    ensures var s := IntToString(i);
            && Strip(s) == s && s != []
            && (s[0] == '-' <==> i < 0) && s[0] != '+'
  {
    IntStringEdges(i);
    StripNoEdgeSpace(IntToString(i));
  }

  /** `str(i)` starts with a sign or a digit and ends with a digit. */
  lemma IntStringEdges(i: int)
    ensures var s := IntToString(i);
            && s != [] && !IsSpace(s[0]) && !IsSpace(s[|s| - 1])
            && (s[0] == '-' <==> i < 0) && s[0] != '+'
  {
    var s := IntToString(i);
    if i < 0 {
      var ds := NatToString(-i);
      assert s == ['-'] + ds;
      DigitNotSpace(ds[|ds| - 1]);
      assert s[|s| - 1] == ds[|ds| - 1];
    } else {
      DigitNotSpace(s[0]);
      DigitNotSpace(s[|s| - 1]);
    }
  }

  /** A digit is neither whitespace nor a sign. */
  lemma DigitNotSpace(c: char)
    requires IsDigit(c)
    ensures !IsSpace(c) && c != '-' && c != '+'
  {
  }
}
