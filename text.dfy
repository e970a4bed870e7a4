/** String helpers the ingest relies on: ECMAScript's `trim` and the decimal rendering
    of an integer inside a template literal. */
module Text {

  /** The characters `String.prototype.trim` strips: ECMAScript's WhiteSpace
      (tab, vertical tab, form feed, space, no-break space, byte-order mark and the
      Unicode space separators U+1680, U+2000 to U+200A, U+202F, U+205F, U+3000) and
      LineTerminator (LF, CR, U+2028, U+2029). */
  const Spaces: set<char> := {
    '\t', '\n', '\U{000B}', '\U{000C}', '\r', ' ', '\U{00A0}', '\U{1680}',
    '\U{2000}', '\U{2001}', '\U{2002}', '\U{2003}', '\U{2004}', '\U{2005}',
    '\U{2006}', '\U{2007}', '\U{2008}', '\U{2009}', '\U{200A}',
    '\U{2028}', '\U{2029}', '\U{202F}', '\U{205F}', '\U{3000}', '\U{FEFF}'
  }

  predicate IsSpace(c: char) {
    c in Spaces
  }

  predicate AllSpace(s: string) {
    forall k :: 0 <= k < |s| ==> IsSpace(s[k])
  }

  /** Leading white space removed. */
  function TrimStart(s: string): (r: string)
  {
    if s != [] && IsSpace(s[0]) then TrimStart(s[1..]) else s
  }

  /** Trailing white space removed. */
  function TrimEnd(s: string): (r: string)
  {
    if s != [] && IsSpace(s[|s| - 1]) then TrimEnd(s[..|s| - 1]) else s
  }

  /** `s.trim()`: drop leading and trailing white space. */
  function Trim(s: string): string {
    TrimEnd(TrimStart(s))
  }

  /** `TrimStart` leaves a suffix of `s` that does not start with white space, and
      everything it drops is white space. */
  lemma {:induction false} TrimStartShape(s: string)
    ensures |TrimStart(s)| <= |s| && TrimStart(s) == s[|s| - |TrimStart(s)|..]
    ensures TrimStart(s) != [] ==> !IsSpace(TrimStart(s)[0])
    ensures AllSpace(s[..|s| - |TrimStart(s)|])
  {
    if s != [] && IsSpace(s[0]) {
      var t := s[1..];
      TrimStartShape(t);
      var dropped := t[..|t| - |TrimStart(t)|];
      var lead := s[..|s| - |TrimStart(s)|];
      assert lead == [s[0]] + dropped;
      forall k | 0 <= k < |lead| ensures IsSpace(lead[k]) {
        if k > 0 {
          assert lead[k] == dropped[k - 1];
        }
      }
    } else {
      assert s[..0] == [];
    }
  }

  /** `TrimEnd` leaves a prefix of `s` that does not end with white space, and
      everything it drops is white space. */
  lemma {:induction false} TrimEndShape(s: string)
    ensures |TrimEnd(s)| <= |s| && TrimEnd(s) == s[..|TrimEnd(s)|]
    ensures TrimEnd(s) != [] ==> !IsSpace(TrimEnd(s)[|TrimEnd(s)| - 1])
    ensures AllSpace(s[|TrimEnd(s)|..])
  {
    if s != [] && IsSpace(s[|s| - 1]) {
      var t := s[..|s| - 1];
      TrimEndShape(t);
      var dropped := t[|TrimEnd(t)|..];
      var trail := s[|TrimEnd(s)|..];
      assert trail == dropped + [s[|s| - 1]];
      forall k | 0 <= k < |trail| ensures IsSpace(trail[k]) {
        if k < |dropped| {
          assert trail[k] == dropped[k];
        }
      }
    } else {
      assert s[|s|..] == [];
    }
  }

  /** The trimmed text is the middle of `s` once white space is removed from both ends. */
  lemma TrimShape(s: string)
    ensures exists i, j :: 0 <= i <= j <= |s| && Trim(s) == s[i..j] && AllSpace(s[..i]) && AllSpace(s[j..])
  {
    var u := TrimStart(s);
    var i := |s| - |u|;
    var j := |TrimEnd(u)|;
    TrimStartShape(s);
    TrimEndShape(u);
    SliceOfSuffix(s, i, j);
    assert Trim(s) == s[i..i + j] && AllSpace(s[i + j..]);
  }

  lemma SliceOfSuffix(s: string, i: nat, j: nat)
    requires i <= |s| && j <= |s| - i
    ensures s[i..][..j] == s[i..i + j] && s[i..][j..] == s[i + j..]
  {
  }

  /** The trimmed text neither starts nor ends with white space. */
  lemma TrimEnds(s: string)
    ensures Trim(s) != [] ==> !IsSpace(Trim(s)[0]) && !IsSpace(Trim(s)[|Trim(s)| - 1])
  {
    var u := TrimStart(s);
    TrimStartShape(s);
    TrimEndShape(u);
    if Trim(s) != [] {
      assert Trim(s)[0] == u[0];
    }
  }

  /** An ID cell trims to the empty string exactly when it holds only white space. */
  lemma TrimEmptyIff(s: string)
    ensures Trim(s) == [] <==> AllSpace(s)
  {
    var u := TrimStart(s);
    var i := |s| - |u|;
    TrimStartShape(s);
    TrimEndShape(u);
    if Trim(s) == [] {
      // A non-empty `u` would start with a non-space, yet `TrimEnd` dropped all of it.
      assert u == [];
      forall k | 0 <= k < |s| ensures IsSpace(s[k]) {
        assert s[k] == s[..i][k];
      }
    } else {
      assert s[i] == Trim(s)[0];
    }
  }

  lemma {:induction false} TrimStartIdle(s: string)
    requires s == [] || !IsSpace(s[0])
    ensures TrimStart(s) == s
  {
  }

  /** Trimming twice is trimming once. */
  lemma TrimIdempotent(s: string)
    ensures Trim(Trim(s)) == Trim(s)
  {
    TrimEnds(s);
    var t := Trim(s);
    TrimStartIdle(t);
    if t != [] {
      assert !IsSpace(t[|t| - 1]);
    }
  }

  predicate IsDigit(c: char) {
    '0' <= c <= '9'
  }

  function DigitChar(d: nat): (c: char)
    requires d < 10
    ensures IsDigit(c)
  {
    "0123456789"[d]
  }

  function DigitValue(c: char): nat {
    if IsDigit(c) then (c as int - '0' as int) as nat else 0
  }

  /** Decimal digits of a natural number, most significant first, without leading zeros. */
  function NatText(n: nat): string
    decreases n
  {
    if n < 10 then [DigitChar(n)] else NatText(n / 10) + [DigitChar(n % 10)]
  }

  /** `${n}` for an integer `n`: a minus sign before the digits of a negative number.
      The text is never empty, starts with '-' exactly for a negative number, and is
      digits everywhere else. */
  function IntText(n: int): (r: string)
    ensures r != [] && (r[0] == '-' <==> n < 0)
    ensures n >= 0 ==> IsDigit(r[0])
    ensures forall k :: 0 < k < |r| ==> IsDigit(r[k])
    ensures var ds := if n < 0 then r[1..] else r; ds != [] && (ds[0] == '0' ==> ds == "0")
  {
    NatTextDigits(if n < 0 then -n else n);
    if n < 0 then "-" + NatText(-n) else NatText(n)
  }

  /** Reads back a string of decimal digits. */
  function NatValue(s: string): nat {
    if s == [] then 0 else NatValue(s[..|s| - 1]) * 10 + DigitValue(s[|s| - 1])
  }

  /** Reads back an optionally negative decimal integer. */
  function IntValue(s: string): int {
    if s != [] && s[0] == '-' then -(NatValue(s[1..]) as int) else NatValue(s)
  }

  /** The decimal text of a natural number is a non-empty run of digits, and it starts
      with '0' only for the number 0, which is written "0". */
  lemma {:induction false} NatTextDigits(n: nat)
    ensures NatText(n) != []
    ensures forall k :: 0 <= k < |NatText(n)| ==> IsDigit(NatText(n)[k])
    ensures NatText(n)[0] == '0' ==> n == 0 && NatText(n) == "0"
    decreases n
  {
    if n >= 10 {
      NatTextDigits(n / 10);
      var t := NatText(n / 10);
      assert NatText(n) == t + [DigitChar(n % 10)];
      assert NatText(n)[0] == t[0];
    } else {
      assert NatText(n) == ["0123456789"[n]];
    }
  }

  /** Reading back the decimal text of a natural number gives the number. */
  lemma {:induction false} NatTextRoundTrip(n: nat)
    ensures NatValue(NatText(n)) == n
    decreases n
  {
    var d := DigitChar(n % 10);
    assert DigitValue(d) == n % 10 by {
      assert "0123456789"[n % 10] as int == '0' as int + n % 10;
    }
    if n >= 10 {
      NatTextRoundTrip(n / 10);
      var t := NatText(n / 10);
      assert NatText(n) == t + [d];
      assert NatText(n)[..|NatText(n)| - 1] == t;
    }
  }

  /** The number written into a note can be read back unchanged. */
  lemma IntTextRoundTrip(n: int)
    ensures IntValue(IntText(n)) == n
  {
    if n < 0 {
      var t := NatText(-n);
      NatTextRoundTrip(-n);
      var w := IntText(n);
      assert w == "-" + t;
      assert w[0] == '-' && w[1..] == t;
    } else {
      var t := NatText(n);
      NatTextRoundTrip(n);
      NatTextDigits(n);
      assert IntText(n) == t;
      assert t[0] != '-' by {
        assert IsDigit(t[0]);
      }
    }
  }
}
