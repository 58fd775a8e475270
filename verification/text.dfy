/** Text handling shared by the parsers: whitespace tokenising as done by
    `std::istringstream >> std::string`, `std::replace` on characters, splitting
    on a separator, and "the last line that matches wins". */
module Text {
  import opened Wrappers
  import opened Decimal

  /** `isspace` in the C locale: space, tab, newline, vertical tab, form feed, carriage return. */
  predicate IsSpace(c: char) {
    c == ' ' || '\t' <= c <= '\r'
  }

  /** What one `>> std::string` extraction can yield: non-empty, no whitespace. */
  predicate IsToken(w: string) {
    |w| > 0 && forall i :: 0 <= i < |w| ==> !IsSpace(w[i])
  }

  /** Digits are not whitespace, so a numeral is a token. */
  lemma NumeralIsToken(s: string)
    requires IsNumeral(s)
    ensures IsToken(s)
  {
  }

  predicate AllTokens(ts: seq<string>) {
    forall i :: 0 <= i < |ts| ==> IsToken(ts[i])
  }

  /** The longest prefix of `s` without whitespace. */
  function Word(s: string): (w: string)
    ensures w <= s
    ensures forall i :: 0 <= i < |w| ==> !IsSpace(w[i])
    ensures |w| < |s| ==> IsSpace(s[|w|])
    decreases |s|
  {
    if |s| == 0 || IsSpace(s[0]) then [] else [s[0]] + Word(s[1..])
  }

  /** The strings that repeated `>> std::string` extractions read from a line, in order. */
  function Tokens(s: string): (ts: seq<string>)
    ensures AllTokens(ts)
    decreases |s|
  {
    if |s| == 0 then []
    else if IsSpace(s[0]) then Tokens(s[1..])
    else
      var w := Word(s);
      [w] + Tokens(s[|w|..])
  }

  /** The first line of a file, as one `std::getline` reads it; "" for an empty file. */
  function FirstLine(lines: seq<string>): string {
    if |lines| == 0 then "" else lines[0]
  }

  /** A whitespace character ends the current word: the word before it is all that `Word` sees. */
  lemma {:induction false} WordBeforeSpace(a: string, c: char, b: string)
    requires IsSpace(c)
    ensures Word(a + [c] + b) == Word(a)
    decreases |a|
  {
    if |a| == 0 {
      assert (a + [c] + b)[0] == c;
    } else if !IsSpace(a[0]) {
      assert (a + [c] + b)[1..] == a[1..] + [c] + b;
      WordBeforeSpace(a[1..], c, b);
    }
  }

  /** Tokenising distributes over a whitespace character. */
  lemma {:induction false} TokensSplitAtSpace(a: string, c: char, b: string)
    requires IsSpace(c)
    ensures Tokens(a + [c] + b) == Tokens(a) + Tokens(b)
    decreases |a|
  {
    var s := a + [c] + b;
    if |a| == 0 {
      assert s[1..] == b;
    } else if IsSpace(a[0]) {
      assert s[1..] == a[1..] + [c] + b;
      TokensSplitAtSpace(a[1..], c, b);
    } else {
      WordBeforeSpace(a, c, b);
      var w := Word(a);
      assert s[|w|..] == a[|w|..] + [c] + b;
      TokensSplitAtSpace(a[|w|..], c, b);
    }
  }

  /** A single token tokenises to itself. */
  lemma TokensOfToken(w: string)
    requires IsToken(w)
    ensures Tokens(w) == [w]
  {
    assert Word(w) == w by { WordOfToken(w); }
    assert w[|w|..] == [];
  }

  lemma {:induction false} WordOfToken(w: string)
    requires forall i :: 0 <= i < |w| ==> !IsSpace(w[i])
    ensures Word(w) == w
    decreases |w|
  {
    if |w| > 0 {
      WordOfToken(w[1..]);
    }
  }

  /** Leading whitespace is skipped. */
  lemma TokensAfterSpace(c: char, b: string)
    requires IsSpace(c)
    ensures Tokens([c] + b) == Tokens(b)
  {
    TokensSplitAtSpace([], c, b);
    assert [] + [c] + b == [c] + b;
  }

  /** Leading whitespace of any length, such as a right-aligned number's padding, reads as nothing. */
  lemma {:induction false} TokensAfterSpaces(pad: string, b: string)
    requires forall i :: 0 <= i < |pad| ==> IsSpace(pad[i])
    ensures Tokens(pad + b) == Tokens(b)
    decreases |pad|
  {
    if |pad| > 0 {
      assert (pad + b)[0] == pad[0] && IsSpace(pad[0]);
      assert (pad + b)[1..] == pad[1..] + b;
      TokensAfterSpaces(pad[1..], b);
    } else {
      assert pad + b == b;
    }
  }

  /** Tokens joined by single spaces: the layout of the kernel's one-line files. */
  function Unwords(ts: seq<string>): string
    decreases |ts|
  {
    if |ts| == 0 then ""
    else if |ts| == 1 then ts[0]
    else ts[0] + " " + Unwords(ts[1..])
  }

  /** Tokenising undoes `Unwords`. */
  lemma {:induction false} TokensOfUnwords(ts: seq<string>)
    requires AllTokens(ts)
    ensures Tokens(Unwords(ts)) == ts
    decreases |ts|
  {
    if |ts| == 1 {
      TokensOfToken(ts[0]);
    } else if |ts| > 1 {
      TokensSplitAtSpace(ts[0], ' ', Unwords(ts[1..]));
      TokensOfToken(ts[0]);
      TokensOfUnwords(ts[1..]);
      assert ts == [ts[0]] + ts[1..];
    }
  }

  /** A line made of a word, a space and more text starts with that word. */
  lemma TokensOfWordThen(w: string, rest: string)
    requires IsToken(w)
    ensures Tokens(w + " " + rest) == [w] + Tokens(rest)
  {
    TokensSplitAtSpace(w, ' ', rest);
    TokensOfToken(w);
  }

  /** `std::replace(s.begin(), s.end(), from, to)`. */
  function Replace(s: string, from: char, to: char): (r: string)
    ensures |r| == |s|
    ensures forall i :: 0 <= i < |s| ==> r[i] == (if s[i] == from then to else s[i])
  {
    seq(|s|, i requires 0 <= i < |s| => if s[i] == from then to else s[i])
  }

  lemma ReplaceAppend(a: string, b: string, from: char, to: char)
    ensures Replace(a + b, from, to) == Replace(a, from, to) + Replace(b, from, to)
  {
    assert |Replace(a + b, from, to)| == |Replace(a, from, to) + Replace(b, from, to)|;
    assert forall i :: 0 <= i < |a + b| ==>
      Replace(a + b, from, to)[i] == (Replace(a, from, to) + Replace(b, from, to))[i];
  }

  /** Replacing distributes over one occurrence of `from` after text without it. */
  lemma ReplaceAfter(a: string, from: char, to: char, b: string)
    requires from !in a
    ensures Replace(a + [from] + b, from, to) == a + [to] + Replace(b, from, to)
  {
    ReplaceAppend(a + [from], b, from, to);
    ReplaceAppend(a, [from], from, to);
    ReplaceAbsent(a, from, to);
  }

  /** Replacing a character that does not occur changes nothing. */
  lemma ReplaceAbsent(s: string, from: char, to: char)
    requires from !in s
    ensures Replace(s, from, to) == s
  {
  }

  /** Replacing `from` by `to` is undone by replacing `to` by `from` when `to` was absent. */
  lemma ReplaceUndo(s: string, from: char, to: char)
    requires to !in s
    ensures Replace(Replace(s, from, to), to, from) == s
  {
    var r := Replace(s, from, to);
    assert forall i :: 0 <= i < |s| ==> s[i] != to;
    assert forall i :: 0 <= i < |s| ==> Replace(r, to, from)[i] == s[i];
  }

  /** Fields of `s` between occurrences of `sep`, for reading HH:MM:SS back: n separators give
      n + 1 fields, so "" is one empty field. */
  function Split(s: string, sep: char): (fields: seq<string>)
    ensures |fields| >= 1
    decreases |s|
  {
    if |s| == 0 then [""]
    else
      var rest := Split(s[1..], sep);
      if s[0] == sep then [""] + rest else [[s[0]] + rest[0]] + rest[1..]
  }

  /** A field without the separator is split off whole. */
  lemma {:induction false} SplitField(a: string, sep: char, b: string)
    requires sep !in a
    ensures Split(a + [sep] + b, sep) == [a] + Split(b, sep)
    decreases |a|
  {
    var s := a + [sep] + b;
    if |a| == 0 {
      assert s[1..] == b;
    } else {
      assert s[1..] == a[1..] + [sep] + b;
      SplitField(a[1..], sep, b);
      assert [a[0]] + a[1..] == a;
    }
  }

  /** Text without the separator is one field. */
  lemma {:induction false} SplitWhole(a: string, sep: char)
    requires sep !in a
    ensures Split(a, sep) == [a]
    decreases |a|
  {
    if |a| > 0 {
      SplitWhole(a[1..], sep);
      assert [a[0]] + a[1..] == a;
    }
  }

  /** The number of occurrences of `c` in `s`. */
  function Count(s: string, c: char): nat
    decreases |s|
  {
    if |s| == 0 then 0 else (if s[0] == c then 1 else 0) + Count(s[1..], c)
  }

  lemma {:induction false} CountAppend(a: string, b: string, c: char)
    ensures Count(a + b, c) == Count(a, c) + Count(b, c)
    decreases |a|
  {
    if |a| > 0 {
      assert (a + b)[1..] == a[1..] + b;
      CountAppend(a[1..], b, c);
    } else {
      assert a + b == b;
    }
  }

  lemma {:induction false} CountAbsent(s: string, c: char)
    requires c !in s
    ensures Count(s, c) == 0
    decreases |s|
  {
    if |s| > 0 {
      CountAbsent(s[1..], c);
    }
  }

  /** The last `Some` of `xs`: the outcome of a scan that overwrites one variable on every
      line that matches and keeps the final assignment. */
  function Last(xs: seq<Option<string>>): (r: Option<string>)
    ensures r.None? <==> forall i :: 0 <= i < |xs| ==> xs[i].None?
    ensures r.Some? ==> exists i :: 0 <= i < |xs| && xs[i] == r
                                  && forall j :: i < j < |xs| ==> xs[j].None?
    decreases |xs|
  {
    if |xs| == 0 then None
    else
      var later := Last(xs[1..]);
      if later.Some? then later else xs[0]
  }

  /** Every element of `ts` except those equal to `w`, in their original order. */
  function RemoveAll(ts: seq<string>, w: string): (r: seq<string>)
    ensures forall t :: t in r <==> t in ts && t != w
    ensures |r| <= |ts|
    decreases |ts|
  {
    if |ts| == 0 then []
    else if ts[0] == w then RemoveAll(ts[1..], w)
    else [ts[0]] + RemoveAll(ts[1..], w)
  }

  /** Removal works element by element, so it keeps the order of what it keeps. */
  lemma {:induction false} RemoveAllAppend(a: seq<string>, b: seq<string>, w: string)
    ensures RemoveAll(a + b, w) == RemoveAll(a, w) + RemoveAll(b, w)
    decreases |a|
  {
    if |a| > 0 {
      assert (a + b)[1..] == a[1..] + b;
      RemoveAllAppend(a[1..], b, w);
    } else {
      assert a + b == b;
    }
  }

  /** The positions below `n` whose element is not `w`, in ascending order. */
  function KeptBelow(ts: seq<string>, w: string, n: nat): seq<nat>
    requires n <= |ts|
    decreases n
  {
    if n == 0 then []
    else KeptBelow(ts, w, n - 1) + (if ts[n - 1] != w then [n - 1] else [])
  }

  /** What `RemoveAll` keeps, position by position: the elements at the ascending positions that
      do not hold `w`, and every such position is among them. */
  predicate KeepsInOrder(ts: seq<string>, w: string, r: seq<string>, ks: seq<nat>, n: nat) {
    && |r| == |ks|
    && (forall k :: 0 <= k < |ks| ==> ks[k] < n && ks[k] < |ts| && r[k] == ts[ks[k]] && r[k] != w)
    && (forall k, l :: 0 <= k < l < |ks| ==> ks[k] < ks[l])
    && (forall i :: 0 <= i < n && i < |ts| && ts[i] != w ==> i in ks)
  }

  lemma {:induction false} RemoveAllKeptBelow(ts: seq<string>, w: string, n: nat)
    requires n <= |ts|
    ensures KeepsInOrder(ts, w, RemoveAll(ts[..n], w), KeptBelow(ts, w, n), n)
    decreases n
  {
    if n > 0 {
      RemoveAllKeptBelow(ts, w, n - 1);
      assert ts[..n] == ts[..n - 1] + [ts[n - 1]];
      RemoveAllAppend(ts[..n - 1], [ts[n - 1]], w);
      assert [ts[n - 1]][1..] == [];
    }
  }

  /** `RemoveAll` keeps exactly the elements other than `w`, in their original order. */
  lemma RemoveAllInOrder(ts: seq<string>, w: string)
    ensures KeepsInOrder(ts, w, RemoveAll(ts, w), KeptBelow(ts, w, |ts|), |ts|)
  {
    RemoveAllKeptBelow(ts, w, |ts|);
    assert ts[..|ts|] == ts;
  }
}
