/** Character and string primitives shared by the pipeline and the two
    categorisers: Python's notion of whitespace, `str.strip`, `str.lower`,
    `str.count`, the substring test `k in t` and single-character
    `str.replace`. */
module Text {
  import opened Seqs

  /** Whitespace as `str.isspace` and `str.strip` see it, restricted to the
      ASCII range: tab, line feed, vertical tab, form feed, carriage return,
      the four information separators and the space. */
  predicate IsSpace(c: char) {
    c as int == 32 || 9 <= c as int <= 13 || 28 <= c as int <= 31
  }

  /** Every character of `s` is whitespace (this includes the empty string). */
  predicate IsBlank(s: string) {
    forall i :: 0 <= i < |s| ==> IsSpace(s[i])
  }

  /** `s.lstrip()`: drops the leading whitespace. */
  function TrimStart(s: string): (r: string)
    ensures |r| <= |s|
  {
    if s != [] && IsSpace(s[0]) then TrimStart(s[1..]) else s
  }

  /** `s.rstrip()`: drops the trailing whitespace. */
  function TrimEnd(s: string): (r: string)
    ensures |r| <= |s|
  {
    if s != [] && IsSpace(s[|s| - 1]) then TrimEnd(s[..|s| - 1]) else s
  }

  /** `lstrip` removes a blank prefix and nothing else, and the rest does
      not start with whitespace. */
  lemma {:induction false} TrimStartSpec(s: string)
    ensures TrimStart(s) == s[|s| - |TrimStart(s)|..]
    ensures IsBlank(s[..|s| - |TrimStart(s)|])
    ensures TrimStart(s) != [] ==> !IsSpace(TrimStart(s)[0])
  {
    if s != [] && IsSpace(s[0]) {
      var tail := s[1..];
      TrimStartSpec(tail);
      var d := |tail| - |TrimStart(tail)|;
      assert tail[d..] == s[d + 1..];
      forall k | 1 <= k < d + 1 ensures IsSpace(s[k]) {
        assert tail[..d][k - 1] == s[k];
      }
    }
  }

  /** `rstrip` removes a blank suffix and nothing else, and the rest does
      not end with whitespace. */
  lemma {:induction false} TrimEndSpec(s: string)
    ensures TrimEnd(s) == s[..|TrimEnd(s)|]
    ensures IsBlank(s[|TrimEnd(s)|..])
    ensures TrimEnd(s) != [] ==> !IsSpace(TrimEnd(s)[|TrimEnd(s)| - 1])
  {
    if s != [] && IsSpace(s[|s| - 1]) {
      var init := s[..|s| - 1];
      TrimEndSpec(init);
      var n := |TrimEnd(init)|;
      assert init[..n] == s[..n];
      forall k | n <= k < |s| ensures IsSpace(s[k]) {
        if k < |s| - 1 {
          assert init[n..][k - n] == s[k];
        }
      }
    }
  }

  /** `s.strip()`. */
  function Strip(s: string): string {
    TrimEnd(TrimStart(s))
  }

  /** What `strip` promises: neither end of the result is whitespace, and
      the result is empty exactly when the input is blank. */
  lemma StripSpec(s: string)
    ensures Strip(s) != [] ==> !IsSpace(Strip(s)[0]) && !IsSpace(Strip(s)[|Strip(s)| - 1])
    ensures Strip(s) == [] <==> IsBlank(s)
  {
    TrimStartSpec(s);
    var t := TrimStart(s);
    TrimEndSpec(t);
    var r := TrimEnd(t);
    var i := |s| - |t|;
    if t == [] {
      assert s[..i] == s;
    } else {
      assert t[0] == s[i];
      assert r[0] == t[0];
    }
  }

  /** The result of `strip` is a slice of the input, and everything cut away
      is whitespace. */
  lemma StripSlice(s: string)
    ensures exists i, j ::
      0 <= i <= j <= |s| && Strip(s) == s[i..j] && IsBlank(s[..i]) && IsBlank(s[j..])
  {
    TrimStartSpec(s);
    var t := TrimStart(s);
    TrimEndSpec(t);
    var r := TrimEnd(t);
    var i := |s| - |t|;
    var j := i + |r|;
    assert r == s[i..j];
    assert s[j..] == t[|r|..];
  }

  /** The three pieces `strip` splits its input into: the whitespace it cuts
      in front, what it keeps, and the whitespace it cuts behind. */
  lemma StripParts(s: string) returns (b1: string, m: string, b2: string)
    ensures s == b1 + m + b2 && Strip(s) == m
    ensures IsBlank(b1) && IsBlank(b2)
    ensures m != [] ==> !IsSpace(m[0]) && !IsSpace(m[|m| - 1])
    ensures m == [] ==> IsBlank(s)
  {
    TrimStartSpec(s);
    var t := TrimStart(s);
    TrimEndSpec(t);
    var d := |s| - |t|;
    var k := |TrimEnd(t)|;
    b1, m, b2 := s[..d], t[..k], t[k..];
    assert m + b2 == t;
    assert b1 + t == s;
    assert b1 + m + b2 == b1 + (m + b2);
    if m == [] {
      BlankJoin(b1, b2);
    } else {
      assert m[0] == t[0];
    }
  }

  /** A string with no whitespace at either end is its own strip. */
  lemma StripUnchanged(s: string)
    requires s != [] ==> !IsSpace(s[0]) && !IsSpace(s[|s| - 1])
    ensures Strip(s) == s
  {
  }

  /** Stripping twice is stripping once. */
  lemma StripIdempotent(s: string)
    ensures Strip(Strip(s)) == Strip(s)
  {
    StripSpec(s);
    StripUnchanged(Strip(s));
  }

  /** Trimming the front of a blank prefix followed by text that does not
      start with whitespace leaves exactly that text. */
  lemma {:induction false} TrimStartBlankPrefix(b: string, rest: string)
    requires IsBlank(b)
    requires rest == [] || !IsSpace(rest[0])
    ensures TrimStart(b + rest) == rest
  {
    if b == [] {
      assert b + rest == rest;
    } else {
      assert (b + rest)[0] == b[0];
      assert (b + rest)[1..] == b[1..] + rest;
      TrimStartBlankPrefix(b[1..], rest);
    }
  }

  /** Leading whitespace is trimmed from text that does not end with
      whitespace alone: whatever follows that text is left in place. */
  lemma {:induction false} TrimStartAppend(a: string, b: string)
    requires a != [] && !IsSpace(a[|a| - 1])
    ensures TrimStart(a + b) == TrimStart(a) + b
    ensures TrimStart(a) != [] && TrimStart(a)[|TrimStart(a)| - 1] == a[|a| - 1]
  {
    assert (a + b)[0] == a[0];
    if IsSpace(a[0]) {
      assert (a + b)[1..] == a[1..] + b;
      TrimStartAppend(a[1..], b);
    }
  }

  /** Trimming the end of text that does not end with whitespace followed
      by a blank suffix leaves exactly that text. */
  lemma {:induction false} TrimEndBlankSuffix(rest: string, b: string)
    requires IsBlank(b)
    requires rest == [] || !IsSpace(rest[|rest| - 1])
    ensures TrimEnd(rest + b) == rest
  {
    if b == [] {
      assert rest + b == rest;
    } else {
      var init := b[..|b| - 1];
      var whole := rest + b;
      assert whole[|whole| - 1] == b[|b| - 1];
      assert whole[..|whole| - 1] == rest + init;
      TrimEndBlankSuffix(rest, init);
    }
  }

  /** `strip` of text padded on both sides by whitespace gives back the text,
      when the text has no whitespace at either end. */
  lemma StripPadded(b1: string, m: string, b2: string)
    requires IsBlank(b1) && IsBlank(b2)
    requires m != [] && !IsSpace(m[0]) && !IsSpace(m[|m| - 1])
    ensures Strip(b1 + m + b2) == m
  {
    assert b1 + m + b2 == b1 + (m + b2);
    assert (m + b2)[0] == m[0];
    TrimStartBlankPrefix(b1, m + b2);
    TrimEndBlankSuffix(m, b2);
  }

  /** `c.lower()` for the letters that occur in the data: the ASCII capitals
      and the nine Polish capitals; every other character is its own
      lower case. */
  function Lower(c: char): (r: char)
    ensures 'A' <= c <= 'Z' ==> r as int == c as int + 32
    ensures !('A' <= r <= 'Z')
  {
    if 'A' <= c <= 'Z' then (c as int + 32) as char
    else match c
      case 'Ą' => 'ą'
      case 'Ć' => 'ć'
      case 'Ę' => 'ę'
      case 'Ł' => 'ł'
      case 'Ń' => 'ń'
      case 'Ó' => 'ó'
      case 'Ś' => 'ś'
      case 'Ź' => 'ź'
      case 'Ż' => 'ż'
      case _ => c
  }

  /** `s.lower()`, character by character. */
  function LowerStr(s: string): (r: string)
    ensures |r| == |s| && forall i :: 0 <= i < |s| ==> r[i] == Lower(s[i])
  {
    seq(|s|, i requires 0 <= i < |s| => Lower(s[i]))
  }

  /** The capitals `Lower` changes: A to Z and the nine Polish capitals. */
  predicate IsCapital(c: char) {
    || 'A' <= c <= 'Z'
    || c == 'Ą' || c == 'Ć' || c == 'Ę' || c == 'Ł' || c == 'Ń'
    || c == 'Ó' || c == 'Ś' || c == 'Ź' || c == 'Ż'
  }

  /** Lower-casing changes exactly the capitals, leaves no capital behind,
      and lower-casing again changes nothing. */
  lemma LowerChar(c: char)
    ensures Lower(c) == c <==> !IsCapital(c)
    ensures !IsCapital(Lower(c))
    ensures Lower(Lower(c)) == Lower(c)
  {
  }

  /** `s.lower()` leaves no capital, keeps every other character where it
      was, and is idempotent. */
  lemma LowerStrSpec(s: string)
    ensures forall i :: 0 <= i < |s| ==> !IsCapital(LowerStr(s)[i])
    ensures forall i :: 0 <= i < |s| && !IsCapital(s[i]) ==> LowerStr(s)[i] == s[i]
    ensures LowerStr(LowerStr(s)) == LowerStr(s)
  {
    forall i | 0 <= i < |s| ensures !IsCapital(LowerStr(s)[i]) && (!IsCapital(s[i]) ==> LowerStr(s)[i] == s[i])
      && LowerStr(LowerStr(s))[i] == LowerStr(s)[i] {
      LowerChar(s[i]);
    }
  }

  /** `s.count(c)` for a one-character `c`. */
  function Count(c: char, s: string): nat {
    if s == [] then 0 else (if s[0] == c then 1 else 0) + Count(c, s[1..])
  }

  lemma {:induction false} CountAppend(c: char, a: string, b: string)
    ensures Count(c, a + b) == Count(c, a) + Count(c, b)
  {
    if a == [] {
      assert a + b == b;
    } else {
      assert (a + b)[1..] == a[1..] + b;
      CountAppend(c, a[1..], b);
    }
  }

  /** A character that does not occur is counted zero times. */
  lemma {:induction false} CountAbsent(c: char, s: string)
    requires forall i :: 0 <= i < |s| ==> s[i] != c
    ensures Count(c, s) == 0
  {
    if s != [] {
      CountAbsent(c, s[1..]);
    }
  }

  /** `k in t` on strings: `k` occurs as a contiguous substring of `t`. */
  predicate Contains(t: string, k: string) {
    exists i :: 0 <= i <= |t| - |k| && OccursAt(t, k, i)
  }

  predicate OccursAt(t: string, k: string, i: int) {
    0 <= i <= |t| - |k| && t[i..i + |k|] == k
  }

  /** `s.replace(a, b)` for one-character `a` and `b`. */
  function ReplaceChar(s: string, a: char, b: char): (r: string)
    ensures |r| == |s|
    ensures forall i :: 0 <= i < |s| ==> r[i] == (if s[i] == a then b else s[i])
  {
    seq(|s|, i requires 0 <= i < |s| => if s[i] == a then b else s[i])
  }

  /** `s.replace(a, "")`: every `a` removed, the other characters kept in order. */
  function RemoveChar(s: string, a: char): (r: string)
    ensures forall i :: 0 <= i < |r| ==> r[i] != a
    ensures |r| == |s| - Count(a, s)
  {
    if s == [] then [] else if s[0] == a then RemoveChar(s[1..], a) else [s[0]] + RemoveChar(s[1..], a)
  }

  /** Replacing one character by another removes every occurrence of the
      first, adds as many of the second, and leaves every other count alone. */
  lemma {:induction false} ReplaceCharCounts(s: string, a: char, b: char)
    requires a != b
    ensures Count(a, ReplaceChar(s, a, b)) == 0
    ensures Count(b, ReplaceChar(s, a, b)) == Count(b, s) + Count(a, s)
    ensures forall c :: c != a && c != b ==> Count(c, ReplaceChar(s, a, b)) == Count(c, s)
  {
    if s != [] {
      var r := ReplaceChar(s, a, b);
      assert r[1..] == ReplaceChar(s[1..], a, b);
      ReplaceCharCounts(s[1..], a, b);
    }
  }

  /** `replace(a, "")` works character by character: on a split input it is
      the two halves' results joined, and a single character is dropped
      exactly when it is `a`. Together these say that every other character
      is kept, in order. */
  lemma {:induction false} RemoveCharSpec(x: string, y: string, a: char)
    ensures RemoveChar(x + y, a) == RemoveChar(x, a) + RemoveChar(y, a)
    ensures forall c :: RemoveChar([c], a) == if c == a then [] else [c]
  {
    if x == [] {
      assert x + y == y;
    } else {
      var xy := x + y;
      assert xy[0] == x[0];
      assert xy[1..] == x[1..] + y;
      RemoveCharSpec(x[1..], y, a);
      var head: string := if x[0] == a then [] else [x[0]];
      Associative(head, RemoveChar(x[1..], a), RemoveChar(y, a));
    }
    forall c ensures RemoveChar([c], a) == if c == a then [] else [c] {
      RemoveOne(c, a);
    }
  }

  lemma RemoveOne(c: char, a: char)
    ensures RemoveChar([c], a) == if c == a then [] else [c]
  {
    assert [c][1..] == [];
  }

  /** Removing `a` leaves the count of every other character unchanged. */
  lemma {:induction false} RemoveCharCounts(s: string, a: char, c: char)
    requires c != a
    ensures Count(c, RemoveChar(s, a)) == Count(c, s)
  {
    if s != [] {
      RemoveCharCounts(s[1..], a, c);
      if s[0] != a {
        assert ([s[0]] + RemoveChar(s[1..], a))[1..] == RemoveChar(s[1..], a);
      }
    }
  }

  /** Removing characters from blank text leaves blank text. */
  lemma {:induction false} RemoveCharBlank(s: string, a: char)
    requires IsBlank(s)
    ensures IsBlank(RemoveChar(s, a))
  {
    if s != [] {
      RemoveCharBlank(s[1..], a);
    }
  }

  /** Text without `a` is its own `replace(a, "")`. */
  lemma {:induction false} RemoveAbsent(s: string, a: char)
    requires forall i :: 0 <= i < |s| ==> s[i] != a
    ensures RemoveChar(s, a) == s
  {
    if s != [] {
      RemoveAbsent(s[1..], a);
    }
  }

  lemma BlankJoin(x: string, y: string)
    requires IsBlank(x) && IsBlank(y)
    ensures IsBlank(x + y)
  {
    assert forall k :: |x| <= k < |x + y| ==> (x + y)[k] == y[k - |x|];
  }

  /** `replace(a, "")` of three pieces is the three results joined. */
  lemma RemoveThree(x: string, m: string, y: string, a: char)
    ensures RemoveChar(x + m + y, a) == RemoveChar(x, a) + RemoveChar(m, a) + RemoveChar(y, a)
  {
    RemoveCharSpec(x + m, y, a);
    RemoveCharSpec(x, m, a);
  }

  /** Removing `a` keeps both ends of text that neither starts nor ends with `a`. */
  lemma RemoveKeepsEnds(m: string, a: char)
    requires m != [] && m[0] != a && m[|m| - 1] != a
    ensures RemoveChar(m, a) != []
    ensures RemoveChar(m, a)[0] == m[0]
    ensures RemoveChar(m, a)[|RemoveChar(m, a)| - 1] == m[|m| - 1]
  {
    var init := m[..|m| - 1];
    assert init + [m[|m| - 1]] == m;
    RemoveCharSpec(init, [m[|m| - 1]], a);
  }

  /** Removing a whitespace character commutes with `strip`: what `strip`
      would cut is removed or cut anyway, and removing it exposes no new
      whitespace at either end. */
  lemma RemoveStrip(s: string, a: char)
    requires IsSpace(a)
    ensures RemoveChar(Strip(s), a) == Strip(RemoveChar(s, a))
  {
    var b1, m, b2 := StripParts(s);
    RemoveThree(b1, m, b2, a);
    RemoveCharBlank(b1, a);
    RemoveCharBlank(b2, a);
    var r1, r2 := RemoveChar(b1, a), RemoveChar(b2, a);
    if m == [] {
      assert r1 + RemoveChar(m, a) + r2 == r1 + r2;
      BlankJoin(r1, r2);
      StripSpec(r1 + r2);
    } else {
      RemoveKeepsEnds(m, a);
      StripPadded(r1, RemoveChar(m, a), r2);
    }
  }

  /** Replacing one character that is not whitespace by another commutes
      with `strip`. */
  lemma ReplaceStrip(s: string, a: char, b: char)
    requires !IsSpace(a) && !IsSpace(b)
    ensures ReplaceChar(Strip(s), a, b) == Strip(ReplaceChar(s, a, b))
  {
    var b1, m, b2 := StripParts(s);
    var c := ReplaceChar(s, a, b);
    if m == [] {
      assert c == s;
    } else {
      var cm := ReplaceChar(m, a, b);
      assert c == b1 + cm + b2;
      StripPadded(b1, cm, b2);
    }
  }

  /** Removing `c` and replacing `a` by `b` can be done in either order
      when `c` is neither of them. */
  lemma {:induction false} RemoveReplace(s: string, c: char, a: char, b: char)
    requires c != a && c != b
    ensures RemoveChar(ReplaceChar(s, a, b), c) == ReplaceChar(RemoveChar(s, c), a, b)
  {
    if s != [] {
      var t := ReplaceChar(s, a, b);
      assert t[1..] == ReplaceChar(s[1..], a, b);
      RemoveReplace(s[1..], c, a, b);
      if s[0] != c {
        var r := RemoveChar(s[1..], c);
        assert ReplaceChar([s[0]] + r, a, b) == [t[0]] + ReplaceChar(r, a, b);
      }
    }
  }
}
