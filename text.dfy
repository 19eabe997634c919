/** Small result types shared by the modules below. */
module Wrappers {

  datatype Option<T> = None | Some(value: T)

  datatype Result<T, E> = Ok(value: T) | Err(error: E)
}

/**
 The text operations the line classifier of the limits-file reconciler is built
 from: whitespace collapse and strip, cutting at the first '#', splitting on a
 separator character, and decimal integers (parsing and formatting).

 Whitespace is the fixed ASCII set space, tab, line feed, vertical tab, form
 feed and carriage return; an integer is an optional sign followed by ASCII
 digits.
 */
module Text {
  import opened Wrappers

  /** Space, or one of the control characters tab (9) .. carriage return (13). */
  predicate IsSpace(c: char) {
    c == ' ' || '\t' <= c <= '\r'
  }

  predicate NoSpace(s: string) {
    forall i :: 0 <= i < |s| ==> !IsSpace(s[i])
  }

  predicate StartsWith(s: string, prefix: string) {
    |prefix| <= |s| && s[..|prefix|] == prefix
  }

  /** A word read back as one field: non-empty, without whitespace
      or '#'. */
  predicate PlainWord(w: string) {
    w != [] && NoSpace(w) && '#' !in w
  }

  /** Leading whitespace removed: the longest suffix of `s` that does not start
      with whitespace. */
  function LStrip(s: string): (r: string)
    ensures |r| <= |s| && r == s[|s| - |r|..]
    ensures r == [] || !IsSpace(r[0])
    ensures forall i :: 0 <= i < |s| - |r| ==> IsSpace(s[i])
  {
    if s != [] && IsSpace(s[0]) then LStrip(s[1..]) else s
  }

  /** Trailing whitespace removed: the longest prefix of `s` that does not end
      with whitespace. */
  function RStrip(s: string): (r: string)
    ensures |r| <= |s| && r == s[..|r|]
    ensures r == [] || !IsSpace(r[|r| - 1])
    ensures forall i :: |r| <= i < |s| ==> IsSpace(s[i])
  {
    if s != [] && IsSpace(s[|s| - 1]) then RStrip(s[..|s| - 1]) else s
  }

  /** Every maximal run of whitespace replaced by a single space: a whitespace
      character followed by another one is dropped, the last one of a run
      becomes a space. */
  function Collapse(s: string): (r: string)
    ensures |r| <= |s|
    ensures (r == []) == (s == [])
    ensures s != [] ==> (IsSpace(r[0]) <==> IsSpace(s[0]))
    ensures forall i :: 0 <= i < |r| && IsSpace(r[i]) ==> r[i] == ' '
  {
    if s == [] then []
    else
      var rest := Collapse(s[1..]);
      if IsSpace(s[0]) && s[1..] != [] && IsSpace(s[1]) then rest
      else
        var r := [if IsSpace(s[0]) then ' ' else s[0]] + rest;
        assert forall i :: 1 <= i < |r| ==> r[i] == rest[i - 1];
        r
  }

  /** No two spaces are adjacent in a collapsed string. */
  lemma {:induction false} CollapseNoDoubleSpace(s: string, i: int)
    requires 0 <= i < |Collapse(s)| - 1
    ensures !(Collapse(s)[i] == ' ' && Collapse(s)[i + 1] == ' ')
  {
    if IsSpace(s[0]) && s[1..] != [] && IsSpace(s[1]) {
      CollapseNoDoubleSpace(s[1..], i);
    } else if i > 0 {
      CollapseNoDoubleSpace(s[1..], i - 1);
    }
  }

  /** Whitespace runs collapsed to one space, then leading and trailing
      whitespace removed; empty exactly when `s` is all whitespace. */
  function Normalize(s: string): (r: string)
    ensures r == [] || (!IsSpace(r[0]) && !IsSpace(r[|r| - 1]))
    ensures (r == []) <==> (forall i :: 0 <= i < |s| ==> IsSpace(s[i]))
  {
    var c := Collapse(s);
    var u := LStrip(c);
    var r := RStrip(u);
    assert r != [] ==> r[0] == u[0];
    NormalizeEmpty(s);
    r
  }

  lemma NormalizeEmpty(s: string)
    ensures RStrip(LStrip(Collapse(s))) == [] <==> (forall i :: 0 <= i < |s| ==> IsSpace(s[i]))
  {
    if forall i :: 0 <= i < |s| ==> IsSpace(s[i]) {
      AllSpaceCollapse(s);
      var c := Collapse(s);
      assert c == [] || IsSpace(c[0]);
      assert LStrip(c) == [];
    } else {
      var i :| 0 <= i < |s| && !IsSpace(s[i]);
      NormalizeKeeps(s, i);
    }
  }

  lemma NormalizeKeeps(s: string, i: int)
    requires 0 <= i < |s| && !IsSpace(s[i])
    ensures RStrip(LStrip(Collapse(s))) != []
  {
    var c := Collapse(s);
    CollapseKeeps(s, i);
    var j :| 0 <= j < |c| && c[j] == s[i];
    StripKeeps(c, j);
  }

  lemma StripKeeps(c: string, j: int)
    requires 0 <= j < |c| && !IsSpace(c[j])
    ensures RStrip(LStrip(c)) != []
  {
    var u := LStrip(c);
    assert j >= |c| - |u|;
    assert !IsSpace(u[j - (|c| - |u|)]);
  }

  /** The leading run of non-whitespace characters of `s`. */
  function LeadWord(s: string): (w: string)
    ensures StartsWith(s, w) && NoSpace(w)
    ensures |w| == |s| || IsSpace(s[|w|])
  {
    if s == [] || IsSpace(s[0]) then []
    else
      var w := [s[0]] + LeadWord(s[1..]);
      assert s[..|w|] == [s[0]] + s[1..][..|w| - 1];
      w
  }

  /** The maximal runs of non-whitespace characters of `s`, in order. */
  function Words(s: string): (ws: seq<string>)
    ensures forall k :: 0 <= k < |ws| ==> ws[k] != [] && NoSpace(ws[k])
    ensures ws == [] <==> forall i :: 0 <= i < |s| ==> IsSpace(s[i])
    decreases |s|
  {
    if s == [] then []
    else if IsSpace(s[0]) then
      assert forall i :: 1 <= i < |s| ==> s[i] == s[1..][i - 1];
      Words(s[1..])
    else
      var w := LeadWord(s);
      [w] + Words(s[|w|..])
  }

  /** Normalizing is joining the words of the line with single spaces: the
      collapse and the strips keep every word, in order, and nothing else. */
  lemma {:induction false} NormalizeWords(s: string)
    ensures Normalize(s) == Join(Words(s), ' ')
    decreases |s|
  {
    if s == [] {
    } else if IsSpace(s[0]) {
      NormalizeSpaceHead(s);
      NormalizeWords(s[1..]);
    } else {
      var w := LeadWord(s);
      var t := s[|w|..];
      NormalizeWordHead(s);
      NormalizeWords(t);
      JoinCons(w, Words(t), ' ');
    }
  }

  /** A leading whitespace character makes no difference once the collapsed
      text is left-stripped. */
  lemma NormalizeSpaceHead(s: string)
    requires s != [] && IsSpace(s[0])
    ensures LStrip(Collapse(s)) == LStrip(Collapse(s[1..]))
  {
    var drop := s[1..] != [] && IsSpace(s[1]);
    CollapseStep(s, ' ', drop);
    if !drop {
      assert ([' '] + Collapse(s[1..]))[1..] == Collapse(s[1..]);
    }
  }

  /** The normal form of a line that starts with a word is that word, then,
      unless the rest is all whitespace, a space and the normal form of the
      rest. */
  lemma NormalizeWordHead(s: string)
    requires s != [] && !IsSpace(s[0])
    ensures var w := LeadWord(s);
      var t := s[|w|..];
      Normalize(s) == if Words(t) == [] then w else w + [' '] + Normalize(t)
  {
    var w := LeadWord(s);
    var t := s[|w|..];
    var c := Collapse(t);
    assert s == w + t;
    CollapseAppend(w, t);
    CollapseWord(w);
    LStripNoLead(w + c);
    if Words(t) == [] {
      AllSpaceCollapsed(t);
      RStripTrail(w, c);
    } else {
      CollapseSpaceHead(t);
      RStripSpaced(w, LStrip(c));
    }
  }

  /** A collapsed text that starts with whitespace but is not all whitespace
      is one space and then its left strip, which starts with a non-space. */
  lemma CollapseSpaceHead(t: string)
    requires t != [] && IsSpace(t[0])
    requires exists i :: 0 <= i < |t| && !IsSpace(t[i])
    ensures var c := Collapse(t);
      c == [' '] + LStrip(c) && LStrip(c) != [] && !IsSpace(LStrip(c)[0])
  {
    var c := Collapse(t);
    var i :| 0 <= i < |t| && !IsSpace(t[i]);
    CollapseKeeps(t, i);
    var j :| 0 <= j < |c| && c[j] == t[i];
    assert c[0] == ' ' && j > 0;
    if IsSpace(c[1]) {
      CollapseNoDoubleSpace(t, 0);
    }
    LStripNoLead(c[1..]);
    HeadTail(c);
  }

  /** An all-whitespace text collapses to all whitespace. */
  lemma AllSpaceCollapsed(t: string)
    requires forall i :: 0 <= i < |t| ==> IsSpace(t[i])
    ensures forall i :: 0 <= i < |Collapse(t)| ==> IsSpace(Collapse(t)[i])
  {
    AllSpaceCollapse(t);
    if t != [] {
      assert IsSpace(t[0]);
    }
  }

  /** A non-empty string is its head followed by its tail. */
  lemma HeadTail(c: string)
    requires c != []
    ensures c == [c[0]] + c[1..]
  {
  }

  /** Right-stripping a word, a space and a text starting with a non-space
      strips only the text. */
  lemma RStripSpaced(w: string, u: string)
    requires u != [] && !IsSpace(u[0])
    ensures RStrip(w + ([' '] + u)) == w + [' '] + RStrip(u)
  {
    var v := [' '] + u;
    assert v[1] == u[0];
    RStripAppend(w, v);
    RStripAppend([' '], u);
    assert w + ([' '] + RStrip(u)) == w + [' '] + RStrip(u);
  }

  /** A word put in front of a non-empty list adds itself and a separator. */
  lemma JoinCons(w: string, ws: seq<string>, sep: char)
    ensures Join([w] + ws, sep) == if ws == [] then w else w + [sep] + Join(ws, sep)
  {
    if ws != [] {
      assert ([w] + ws)[1..] == ws;
    }
  }

  /** The part of `s` before its first '#' (all of `s` when it has none). */
  function CutAtHash(s: string): (r: string)
    ensures '#' !in r
    ensures StartsWith(s, r)
    ensures |r| == |s| || s[|r|] == '#'
  {
    if s == [] then []
    else if s[0] == '#' then []
    else [s[0]] + CutAtHash(s[1..])
  }

  /** The part of `s` after its first '#' (empty when it has none). */
  function AfterHash(s: string): (r: string)
    ensures '#' in s ==> s == CutAtHash(s) + "#" + r
    ensures '#' !in s ==> r == []
  {
    if s == [] then []
    else if s[0] == '#' then s[1..]
    else
      var r := AfterHash(s[1..]);
      assert '#' in s ==> '#' in s[1..];
      assert '#' in s ==> s == [s[0]] + (CutAtHash(s[1..]) + "#" + r);
      r
  }

  /** The pieces joined with `sep` between consecutive pieces. */
  function Join(ws: seq<string>, sep: char): string {
    if |ws| == 0 then []
    else if |ws| == 1 then ws[0]
    else ws[0] + [sep] + Join(ws[1..], sep)
  }

  /** Four words joined by `sep`, written out. */
  lemma JoinFour(a: string, b: string, c: string, d: string, sep: char)
    ensures Join([a, b, c, d], sep) == a + [sep] + b + [sep] + c + [sep] + d
  {
    var ws := [a, b, c, d];
    assert Join(ws[3..], sep) == d;
    assert Join(ws[2..], sep) == c + [sep] + d;
    assert Join(ws[1..], sep) == b + [sep] + (c + [sep] + d);
  }

  /** `s` cut at every occurrence of `sep`; the empty string gives one empty
      piece. */
  function Split(s: string, sep: char): (r: seq<string>)
    ensures |r| >= 1
    ensures forall k :: 0 <= k < |r| ==> sep !in r[k]
    ensures Join(r, sep) == s
  {
    if s == [] then [[]]
    else
      var rest := Split(s[1..], sep);
      if s[0] == sep then [[]] + rest
      else [[s[0]] + rest[0]] + rest[1..]
  }

  predicate IsDigit(c: char) {
    '0' <= c <= '9'
  }

  predicate AllDigits(s: string) {
    forall i :: 0 <= i < |s| ==> IsDigit(s[i])
  }

  /** The number a string of decimal digits denotes. */
  function DigitsValue(s: string): nat
    requires AllDigits(s)
  {
    if s == [] then 0
    else DigitsValue(s[..|s| - 1]) * 10 + (s[|s| - 1] as int - '0' as int)
  }

  /** The accepted integer syntax: an optional sign followed by at least one
      ASCII digit. */
  predicate IsDecimal(s: string) {
    if |s| > 0 && (s[0] == '-' || s[0] == '+') then |s| > 1 && AllDigits(s[1..])
    else |s| > 0 && AllDigits(s)
  }

  /** The integer a decimal string denotes, or None when it is not one. */
  function ParseInt(s: string): (r: Option<int>)
    ensures r.Some? <==> IsDecimal(s)
    ensures r.Some? && s[0] == '-' ==> r.value == 0 - DigitsValue(s[1..])
    ensures r.Some? && s[0] == '+' ==> r.value == DigitsValue(s[1..])
    ensures r.Some? && s[0] != '-' && s[0] != '+' ==> r.value == DigitsValue(s)
  {
    if |s| > 0 && (s[0] == '-' || s[0] == '+') then
      if |s| > 1 && AllDigits(s[1..]) then
        var v: int := if s[0] == '-' then 0 - DigitsValue(s[1..]) else DigitsValue(s[1..]);
        Some(v)
      else None
    else if |s| > 0 && AllDigits(s) then Some(DigitsValue(s))
    else None
  }

  /** An explicit '+' sign does not change the value. */
  lemma ParsePlus(d: string)
    requires d != [] && AllDigits(d)
    ensures ParseInt("+" + d) == ParseInt(d)
  {
    assert ("+" + d)[1..] == d;
  }

  /** A leading zero does not change the value. */
  lemma ParseLeadingZero(d: string)
    requires d != [] && AllDigits(d)
    ensures ParseInt("0" + d) == ParseInt(d)
  {
    DigitsLeadingZero(d);
  }

  /** Minus zero is zero. */
  lemma ParseMinusZero()
    ensures ParseInt("-0") == Some(0)
  {
    assert "-0"[1..] == "0";
    assert DigitsValue("0") == DigitsValue("0"[..0]) * 10 + 0;
  }

  lemma {:induction false} DigitsLeadingZero(d: string)
    requires AllDigits(d)
    ensures AllDigits("0" + d) && DigitsValue("0" + d) == DigitsValue(d)
  {
    var z := "0" + d;
    if d == [] {
      assert z[..0] == [];
    } else {
      var init := d[..|d| - 1];
      DigitsLeadingZero(init);
      assert z[..|z| - 1] == "0" + init;
      assert z[|z| - 1] == d[|d| - 1];
    }
  }

  function DigitChar(d: nat): (c: char)
    requires d < 10
    ensures IsDigit(c) && c as int - '0' as int == d
  {
    (d + '0' as int) as char
  }

  /** The decimal digits of `n`, without leading zeros. */
  function NatToString(n: nat): (r: string)
    ensures |r| >= 1 && AllDigits(r)
    ensures r[0] == '0' ==> n == 0 && r == "0"
    ensures DigitsValue(r) == n
  {
    if n < 10 then [DigitChar(n)]
    else
      var r := NatToString(n / 10) + [DigitChar(n % 10)];
      assert r[..|r| - 1] == NatToString(n / 10);
      r
  }

  /** Digits with no leading zero; the empty string qualifies. */
  predicate NoLeadingZero(d: string) {
    AllDigits(d) && (d == [] || d[0] != '0')
  }

  /** The form in which Python's str() writes an int: "0", or digits with
      no leading zero, or '-' followed by digits with no leading zero; never
      a '+', never "-0". */
  predicate Canonical(r: string) {
    if |r| > 0 && r[0] == '-' then |r| > 1 && AllDigits(r[1..]) && r[1] != '0'
    else r == "0" || (r != [] && NoLeadingZero(r))
  }

  /** `n` in decimal, with a leading '-' when it is negative, as Python's
      str() writes an int; parsing it gives `n` back, and by CanonicalUnique
      it is the only canonical text that does. */
  function IntToString(n: int): (r: string)
    ensures ParseInt(r) == Some(n)
    ensures Canonical(r)
    ensures n < 0 <==> r[0] == '-'
    ensures r != [] && NoSpace(r) && '#' !in r
  {
    if n < 0 then
      var d := NatToString(-n);
      assert ("-" + d)[1..] == d;
      "-" + d
    else NatToString(n)
  }

  /** A non-empty run of digits that does not start with '0' denotes a
      positive number. */
  lemma {:induction false} DigitsPositive(d: string)
    requires d != [] && AllDigits(d) && d[0] != '0'
    ensures DigitsValue(d) > 0
  {
    if |d| > 1 {
      var init := d[..|d| - 1];
      assert init[0] == d[0];
      DigitsPositive(init);
    }
  }

  /** Two digit runs with no leading zero that denote the same number are
      the same text. */
  lemma {:induction false} DigitsUnique(a: string, b: string)
    requires NoLeadingZero(a) && NoLeadingZero(b)
    requires DigitsValue(a) == DigitsValue(b)
    ensures a == b
  {
    if a == [] || b == [] {
      if a != [] { DigitsPositive(a); }
      if b != [] { DigitsPositive(b); }
    } else {
      var ia, ib := a[..|a| - 1], b[..|b| - 1];
      var la, lb := a[|a| - 1] as int - '0' as int, b[|b| - 1] as int - '0' as int;
      assert DigitsValue(a) == DigitsValue(ia) * 10 + la;
      assert DigitsValue(b) == DigitsValue(ib) * 10 + lb;
      assert la == lb && DigitsValue(ia) == DigitsValue(ib);
      assert ia != [] ==> ia[0] == a[0];
      assert ib != [] ==> ib[0] == b[0];
      DigitsUnique(ia, ib);
      assert a == ia + [a[|a| - 1]];
      assert b == ib + [b[|b| - 1]];
    }
  }

  /** At most one canonical text parses to a given value: the text
      IntToString writes is exactly what str() writes. */
  lemma CanonicalUnique(a: string, b: string)
    requires Canonical(a) && Canonical(b) && ParseInt(a) == ParseInt(b)
    ensures a == b
  {
    if a[0] == '-' && b[0] == '-' {
      DigitsUnique(a[1..], b[1..]);
      assert a == [a[0]] + a[1..] && b == [b[0]] + b[1..];
    } else if a[0] == '-' {
      DigitsPositive(a[1..]);
    } else if b[0] == '-' {
      DigitsPositive(b[1..]);
    } else if a == "0" || b == "0" {
      if a != "0" { DigitsPositive(a); }
      if b != "0" { DigitsPositive(b); }
      assert DigitsValue("0") == DigitsValue("0"[..0]) * 10;
    } else {
      DigitsUnique(a, b);
    }
  }

  // ----- lemmas used by Normalize -----

  lemma {:induction false} AllSpaceCollapse(s: string)
    requires forall i :: 0 <= i < |s| ==> IsSpace(s[i])
    ensures |Collapse(s)| <= 1
  {
    if |s| > 1 {
      AllSpaceCollapse(s[1..]);
    }
  }

  /** A non-whitespace character of `s` survives in its collapse. */
  lemma {:induction false} CollapseKeeps(s: string, i: int)
    requires 0 <= i < |s| && !IsSpace(s[i])
    ensures exists j :: 0 <= j < |Collapse(s)| && Collapse(s)[j] == s[i]
  {
    if i == 0 {
      assert Collapse(s)[0] == s[0];
    } else {
      CollapseKeeps(s[1..], i - 1);
      var j :| 0 <= j < |Collapse(s[1..])| && Collapse(s[1..])[j] == s[i];
      if IsSpace(s[0]) && IsSpace(s[1]) {
        assert Collapse(s)[j] == s[i];
      } else {
        assert Collapse(s)[j + 1] == s[i];
      }
    }
  }

  // ----- lemmas about concatenations -----

  /** Trailing whitespace only reaches into `y` when `z` is all whitespace. */
  lemma {:induction false} RStripAppend(y: string, z: string)
    requires exists i :: 0 <= i < |z| && !IsSpace(z[i])
    ensures RStrip(y + z) == y + RStrip(z)
    decreases |z|
  {
    var i :| 0 <= i < |z| && !IsSpace(z[i]);
    if IsSpace(z[|z| - 1]) {
      assert (y + z)[..|y + z| - 1] == y + z[..|z| - 1];
      assert i < |z| - 1 && !IsSpace(z[..|z| - 1][i]);
      RStripAppend(y, z[..|z| - 1]);
    }
  }

  /** Collapsing splits at a boundary that follows a non-whitespace character. */
  lemma {:induction false} CollapseAppend(x: string, z: string)
    requires x == [] || !IsSpace(x[|x| - 1])
    ensures Collapse(x + z) == Collapse(x) + Collapse(z)
  {
    if x == [] {
      assert x + z == z;
    } else {
      var y := x + z;
      assert y[1..] == x[1..] + z;
      assert x[1..] == [] || x[1..][|x[1..]| - 1] == x[|x| - 1];
      CollapseAppend(x[1..], z);
      var drop := IsSpace(x[0]) && x[1..] != [] && IsSpace(x[1]);
      assert drop == (IsSpace(y[0]) && y[1..] != [] && IsSpace(y[1])) by {
        assert y[0] == x[0];
        if |x| >= 2 {
          assert y[1] == x[1];
        }
      }
      var c := if IsSpace(x[0]) then ' ' else x[0];
      CollapseStep(x, c, drop);
      CollapseStep(y, c, drop);
      if !drop {
        SeqAssoc([c], Collapse(x[1..]), Collapse(z));
      }
    }
  }

  /** One step of collapsing a non-empty string, whose first character
      becomes `c` unless it is dropped. */
  lemma CollapseStep(s: string, c: char, drop: bool)
    requires s != [] && c == (if IsSpace(s[0]) then ' ' else s[0])
    requires drop == (IsSpace(s[0]) && s[1..] != [] && IsSpace(s[1]))
    ensures drop ==> Collapse(s) == Collapse(s[1..])
    ensures !drop ==> Collapse(s) == [c] + Collapse(s[1..])
  {
  }

  lemma {:induction false} CutAtHashAppend(x: string, z: string)
    requires '#' !in x
    ensures CutAtHash(x + z) == x + CutAtHash(z)
  {
    if x != [] {
      assert (x + z)[1..] == x[1..] + z;
      assert x[0] in x && '#' !in x[1..];
      CutAtHashAppend(x[1..], z);
      assert (x + z)[0] == x[0] && x[0] != '#';
      assert CutAtHash(x + z) == [x[0]] + (x[1..] + CutAtHash(z));
      assert [x[0]] + x[1..] == x;
    } else {
      assert x + z == z;
    }
  }

  /** A string without whitespace is its own collapse. */
  lemma {:induction false} CollapseWord(w: string)
    requires NoSpace(w)
    ensures Collapse(w) == w
  {
    if w != [] {
      CollapseWord(w[1..]);
    }
  }

  /** Pieces without whitespace joined by tabs collapse to the same pieces
      joined by single spaces. */
  lemma {:induction false} CollapseJoin(ws: seq<string>)
    requires forall k :: 0 <= k < |ws| ==> ws[k] != [] && NoSpace(ws[k])
    ensures Collapse(Join(ws, '\t')) == Join(ws, ' ')
  {
    if |ws| == 1 {
      CollapseWord(ws[0]);
    } else if |ws| > 1 {
      var rest := Join(ws[1..], '\t');
      JoinFirst(ws[1..], '\t');
      CollapseTabWord(ws[0], rest);
      CollapseJoin(ws[1..]);
      assert Join(ws, '\t') == ws[0] + ['\t'] + rest;
    }
  }

  lemma CollapseTabWord(w: string, rest: string)
    requires w != [] && NoSpace(w)
    requires rest != [] && !IsSpace(rest[0])
    ensures Collapse(w + ['\t'] + rest) == w + [' '] + Collapse(rest)
  {
    var tail := ['\t'] + rest;
    assert w + ['\t'] + rest == w + tail;
    CollapseAppend(w, tail);
    CollapseWord(w);
    CollapseLeadingSpace(rest);
  }

  lemma CollapseLeadingSpace(rest: string)
    requires rest != [] && !IsSpace(rest[0])
    ensures Collapse(['\t'] + rest) == [' '] + Collapse(rest)
  {
    var s := ['\t'] + rest;
    assert s[1..] == rest;
    assert IsSpace(s[0]) && !IsSpace(s[1]);
  }

  /** A join of non-empty pieces starts with the first piece's first character
      and ends with the last piece's last character. */
  lemma {:induction false} JoinFirst(ws: seq<string>, sep: char)
    requires |ws| >= 1 && forall k :: 0 <= k < |ws| ==> ws[k] != []
    ensures Join(ws, sep) != []
    ensures Join(ws, sep)[0] == ws[0][0]
    ensures Join(ws, sep)[|Join(ws, sep)| - 1] == ws[|ws| - 1][|ws[|ws| - 1]| - 1]
  {
    if |ws| > 1 {
      JoinFirst(ws[1..], sep);
    }
  }

  /** Splitting undoes joining when no piece contains the separator. */
  lemma {:induction false} SplitJoin(ws: seq<string>, sep: char)
    requires |ws| >= 1
    requires forall k :: 0 <= k < |ws| ==> sep !in ws[k]
    ensures Split(Join(ws, sep), sep) == ws
  {
    if |ws| == 1 {
      SplitWord(ws[0], sep);
    } else {
      SplitJoin(ws[1..], sep);
      SplitPrefix(ws[0], Join(ws[1..], sep), sep);
      assert Join(ws, sep) == ws[0] + ([sep] + Join(ws[1..], sep));
    }
  }

  lemma {:induction false} SplitWord(w: string, sep: char)
    requires sep !in w
    ensures Split(w, sep) == [w]
  {
    if w != [] {
      SplitWord(w[1..], sep);
    }
  }

  lemma {:induction false} SplitPrefix(w: string, rest: string, sep: char)
    requires sep !in w
    ensures Split(w + ([sep] + rest), sep) == [w] + Split(rest, sep)
  {
    if w == [] {
      assert w + ([sep] + rest) == [sep] + rest;
      assert ([sep] + rest)[1..] == rest;
    } else {
      assert (w + ([sep] + rest))[1..] == w[1..] + ([sep] + rest);
      assert w[0] in w && sep !in w[1..];
      SplitPrefix(w[1..], rest, sep);
      assert [w[0]] + w[1..] == w;
    }
  }

  // ----- lemmas used to read back a written record -----

  /** Two plain words glued together are one. */
  lemma PlainWordAppend(a: string, b: string)
    requires PlainWord(a) && PlainWord(b)
    ensures PlainWord(a + b)
  {
    assert forall i :: |a| <= i < |a + b| ==> (a + b)[i] == b[i - |a|];
  }

  /** A non-empty string followed by something that starts with a
      non-digit is no integer. */
  lemma NotDecimalGlued(s: string, c: string)
    requires s != [] && c != [] && !IsDigit(c[0])
    ensures !IsDecimal(s + c)
  {
    var t := s + c;
    assert t[|s|] == c[0];
    if t[0] == '-' || t[0] == '+' {
      if |t| > 1 {
        assert t[1..][|s| - 1] == c[0];
      }
    }
  }

  /** A string whose first character differs from the prefix's does not
      start with it. */
  lemma HeadDiffers(s: string, prefix: string)
    requires prefix != [] && (s == [] || s[0] != prefix[0])
    ensures !StartsWith(s, prefix)
  {
    if |prefix| <= |s| {
      assert s[..|prefix|][0] == s[0];
    }
  }

  /** A string that is `d`, then `c`, then anything, does not start with a
      prefix that `d` does not start with and that does not contain `c`. */
  lemma PrefixThenChar(s: string, d: string, c: char, prefix: string)
    requires |d| < |s| && s[..|d|] == d && s[|d|] == c
    requires !StartsWith(d, prefix) && c !in prefix
    ensures !StartsWith(s, prefix)
  {
    if |prefix| <= |d| {
      assert d[..|prefix|] == s[..|prefix|];
    } else if |prefix| <= |s| {
      assert s[..|prefix|][|d|] == c;
    }
  }

  /** `d`, then a tab, then `r` has `d` as its prefix and the tab right after it. */
  lemma StartsTabbed(d: string, r: string)
    ensures var s := d + ['\t'] + r;
      |d| < |s| && s[..|d|] == d && s[|d|] == '\t'
  {
    var s := d + ['\t'] + r;
    assert s[..|d|] == d;
  }

  lemma StartsWithChar(s: string, c: char)
    ensures StartsWith(s, [c]) <==> s != [] && s[0] == c
  {
    if s != [] && s[0] == c {
      assert s[..1] == [c];
    }
  }

  /** A string starting with a non-whitespace character is its own left strip. */
  lemma LStripNoLead(s: string)
    requires s != [] && !IsSpace(s[0])
    ensures LStrip(s) == s
  {
  }

  /** Right strip removes exactly a whitespace tail that follows a
      non-whitespace character. */
  lemma {:induction false} RStripTrail(y: string, z: string)
    requires y == [] || !IsSpace(y[|y| - 1])
    requires forall i :: 0 <= i < |z| ==> IsSpace(z[i])
    ensures RStrip(y + z) == y
    decreases |z|
  {
    if z == [] {
      assert y + z == y;
    } else {
      assert (y + z)[|y + z| - 1] == z[|z| - 1];
      assert (y + z)[..|y + z| - 1] == y + z[..|z| - 1];
      RStripTrail(y, z[..|z| - 1]);
    }
  }

  lemma CutAtHashNone(x: string)
    requires '#' !in x
    ensures CutAtHash(x) == x
  {
    CutAtHashAppend(x, []);
    assert x + [] == x;
  }

  lemma CollapseHead(s: string)
    requires s != [] && !IsSpace(s[0])
    ensures Collapse(s) != [] && Collapse(s)[0] == s[0]
  {
  }

  lemma RStripHead(s: string)
    requires s != [] && !IsSpace(s[0])
    ensures RStrip(s) != [] && RStrip(s)[0] == s[0]
  {
  }

  /** A character in no piece, other than the separator, is not in the join. */
  lemma {:induction false} JoinAvoids(ws: seq<string>, sep: char, ch: char)
    requires ch != sep && forall k :: 0 <= k < |ws| ==> ch !in ws[k]
    ensures ch !in Join(ws, sep)
  {
    if |ws| > 1 {
      JoinAvoids(ws[1..], sep, ch);
      assert Join(ws, sep) == ws[0] + [sep] + Join(ws[1..], sep);
    }
  }

  // ----- the text of a file and its lines -----

  /** No line feed before the last character. */
  predicate BreakAtEnd(s: string) {
    forall i :: 0 <= i < |s| - 1 ==> s[i] != '\n'
  }

  /** Ends in a line feed. */
  predicate Terminated(s: string) {
    s != [] && s[|s| - 1] == '\n'
  }

  /** What reading a file line by line yields: non-empty lines, each with a
      line feed at most at its end, every one but the last ending in one. */
  predicate IsLines(ls: seq<string>) {
    forall k :: 0 <= k < |ls| ==> ls[k] != [] && BreakAtEnd(ls[k]) && (k < |ls| - 1 ==> Terminated(ls[k]))
  }

  /** The text of pieces written one after another. */
  function Concat(ps: seq<string>): string {
    if ps == [] then [] else ps[0] + Concat(ps[1..])
  }

  /** The first line of `s`: up to and including its first line feed, or all
      of `s` when it has none. */
  function FirstLine(s: string): (l: string)
    ensures |l| <= |s|
    ensures s != [] ==> l != []
  {
    if s == [] then []
    else if s[0] == '\n' then [s[0]]
    else [s[0]] + FirstLine(s[1..])
  }

  /** The first line is a prefix of the text with no line feed before its
      end, and it is all of the text or ends in a line feed. */
  lemma {:induction false} FirstLineIs(s: string)
    ensures var l := FirstLine(s);
      && l == s[..|l|] && BreakAtEnd(l) && (|l| == |s| || Terminated(l))
  {
    if s != [] && s[0] != '\n' {
      FirstLineIs(s[1..]);
      var l := FirstLine(s);
      assert s[..|l|] == [s[0]] + s[1..][..|l| - 1];
    }
  }

  /** The lines of `s`, as reading it line by line gives them. */
  function Lines(s: string): seq<string>
    decreases |s|
  {
    if s == [] then []
    else
      var l := FirstLine(s);
      [l] + Lines(s[|l|..])
  }

  /** Reading a text line by line gives what it should. */
  lemma {:induction false} LinesAreLines(s: string)
    ensures IsLines(Lines(s))
    decreases |s|
  {
    if s != [] {
      var l := FirstLine(s);
      var rest := Lines(s[|l|..]);
      var ls := Lines(s);
      FirstLineIs(s);
      LinesAreLines(s[|l|..]);
      forall k | 0 <= k < |ls|
        ensures ls[k] != [] && BreakAtEnd(ls[k]) && (k < |ls| - 1 ==> Terminated(ls[k]))
      {
        if k > 0 {
          assert ls[k] == rest[k - 1];
        } else if |ls| > 1 {
          assert s[|l|..] != [];
        }
      }
    }
  }

  /** The lines of each piece in turn. */
  function PieceLines(ps: seq<string>): seq<string> {
    if ps == [] then [] else Lines(ps[0]) + PieceLines(ps[1..])
  }

  /** Writing a text's lines one after another gives the text back. */
  lemma {:induction false} ConcatLines(s: string)
    ensures Concat(Lines(s)) == s
    decreases |s|
  {
    if s != [] {
      var l := FirstLine(s);
      var ls := Lines(s);
      FirstLineIs(s);
      ConcatLines(s[|l|..]);
      assert ls[1..] == Lines(s[|l|..]);
      assert s == l + s[|l|..];
    }
  }

  /** A line, then text after it when the line is complete, starts with that
      line. */
  lemma {:induction false} FirstLineOf(l: string, rest: string)
    requires l != [] && BreakAtEnd(l) && (Terminated(l) || rest == [])
    ensures FirstLine(l + rest) == l
  {
    var s := l + rest;
    if |l| == 1 {
      if l[0] != '\n' {
        assert s == l;
        assert s[1..] == [];
      }
    } else {
      assert l[0] != '\n';
      assert s[1..] == l[1..] + rest;
      FirstLineOf(l[1..], rest);
    }
  }

  /** Lines read back from their own text are those lines. */
  lemma {:induction false} LinesConcat(ls: seq<string>)
    requires IsLines(ls)
    ensures Lines(Concat(ls)) == ls
  {
    if ls != [] {
      var rest := Concat(ls[1..]);
      assert IsLines(ls[1..]) by {
        forall k | 0 <= k < |ls[1..]|
          ensures ls[1..][k] != [] && BreakAtEnd(ls[1..][k]) && (k < |ls[1..]| - 1 ==> Terminated(ls[1..][k]))
        {
          assert ls[1..][k] == ls[k + 1];
        }
      }
      LinesConcat(ls[1..]);
      if |ls| == 1 {
        assert rest == [];
      }
      LinesCons(ls[0], rest);
    }
  }

  /** A text made of a complete line and more reads as that line, then the
      lines of the rest. */
  lemma LinesCons(l: string, rest: string)
    requires l != [] && BreakAtEnd(l) && (Terminated(l) || rest == [])
    ensures Lines(l + rest) == [l] + Lines(rest)
  {
    FirstLineOf(l, rest);
    assert (l + rest)[|l|..] == rest;
  }

  /** The lines of a text whose first part ends in a line feed are the lines
      of that part, then those of the rest. */
  lemma {:induction false} LinesAppend(a: string, b: string)
    requires a == [] || Terminated(a)
    ensures Lines(a + b) == Lines(a) + Lines(b)
    decreases |a|
  {
    if a == [] {
      assert a + b == b;
    } else {
      var l := FirstLine(a);
      var t := a[|l|..];
      FirstLineIs(a);
      assert Terminated(l);
      assert t == [] || Terminated(t);
      LinesAppend(t, b);
      assert a == l + t;
      LinesStep(l, t, b);
    }
  }

  lemma LinesStep(l: string, t: string, b: string)
    requires l != [] && BreakAtEnd(l) && Terminated(l)
    requires Lines(t + b) == Lines(t) + Lines(b)
    ensures Lines(l + t + b) == Lines(l + t) + Lines(b)
  {
    var x := Lines(t);
    var y := Lines(b);
    LinesCons(l, t);
    assert l + t + b == l + (t + b);
    LinesCons(l, t + b);
    SeqAssoc([l], x, y);
  }

  /** Concatenation is associative. */
  lemma SeqAssoc<T>(x: seq<T>, y: seq<T>, z: seq<T>)
    ensures x + (y + z) == (x + y) + z
  {
  }

  /** The lines of pieces written one after another, each but the last
      complete, are the lines of each piece in turn. */
  lemma {:induction false} LinesOfPieces(ps: seq<string>)
    requires forall i :: 0 <= i < |ps| - 1 ==> Terminated(ps[i])
    ensures Lines(Concat(ps)) == PieceLines(ps)
  {
    if |ps| == 1 {
      assert ps[1..] == [];
      assert Concat(ps) == ps[0] + [] == ps[0];
      assert PieceLines(ps) == Lines(ps[0]) + [] == Lines(ps[0]);
    } else if |ps| > 1 {
      assert Terminated(ps[0]);
      LinesOfPieces(ps[1..]);
      LinesAppend(ps[0], Concat(ps[1..]));
      assert Concat(ps) == ps[0] + Concat(ps[1..]);
      assert PieceLines(ps) == Lines(ps[0]) + PieceLines(ps[1..]);
    }
  }

  lemma {:induction false} PieceLinesAppend(a: seq<string>, b: seq<string>)
    ensures PieceLines(a + b) == PieceLines(a) + PieceLines(b)
  {
    if a == [] {
      assert a + b == b;
    } else {
      assert (a + b)[1..] == a[1..] + b;
      PieceLinesAppend(a[1..], b);
    }
  }

  /** The first line of a piece is among the lines of the pieces in turn. */
  lemma {:induction false} PieceLinesHas(ps: seq<string>, i: nat)
    requires i < |ps| && Lines(ps[i]) != []
    ensures exists j :: 0 <= j < |PieceLines(ps)| && PieceLines(ps)[j] == Lines(ps[i])[0]
  {
    var h := Lines(ps[0]);
    var t := PieceLines(ps[1..]);
    if i == 0 {
      assert PieceLines(ps)[0] == h[0];
    } else {
      assert ps[1..][i - 1] == ps[i];
      PieceLinesHas(ps[1..], i - 1);
      var j :| 0 <= j < |t| && t[j] == Lines(ps[i])[0];
      assert PieceLines(ps)[|h| + j] == t[j];
    }
  }
}
