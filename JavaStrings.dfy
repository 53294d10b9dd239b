/** The java.lang.String and java.lang.Integer operations the interpreter
    relies on: indexOf, contains, split (with and without a limit), trim,
    Integer.parseInt and the decimal form of an int. */
module JavaStrings {
  import opened Results

  // ---------------------------------------------------------------------
  // Searching

  /** `pat` occurs in `s` starting at position `i`. */
  predicate OccursAt(s: string, pat: string, i: nat)
  {
    i + |pat| <= |s| && s[i..i + |pat|] == pat
  }

  /** String.indexOf(pat, from): the first occurrence at or after `from`. */
  function IndexOfFrom(s: string, pat: string, from: nat): (r: Option<nat>)
    requires from <= |s|
    ensures r.Some? ==> from <= r.value && OccursAt(s, pat, r.value)
    ensures forall j: nat :: from <= j && (r.None? || j < r.value) ==> !OccursAt(s, pat, j)
    decreases |s| - from
  {
    if from + |pat| > |s| then None
    else if s[from..from + |pat|] == pat then Some(from)
    else IndexOfFrom(s, pat, from + 1)
  }

  /** String.indexOf(pat): the first occurrence of `pat` in `s`, if any. */
  function IndexOf(s: string, pat: string): (r: Option<nat>)
    ensures r.Some? ==> OccursAt(s, pat, r.value)
    ensures forall j: nat :: (r.None? || j < r.value) ==> !OccursAt(s, pat, j)
  {
    IndexOfFrom(s, pat, 0)
  }

  /** String.contains(key). */
  predicate Contains(s: string, key: string)
  {
    IndexOf(s, key).Some?
  }

  /** `key` is contained in `s` exactly when it occurs at some position. */
  lemma ContainsOccurs(s: string, key: string)
    ensures Contains(s, key) <==> exists j: nat :: OccursAt(s, key, j)
  {
  }

  lemma ContainsChar(s: string, c: char)
    ensures Contains(s, [c]) <==> c in s
  {
    ContainsOccurs(s, [c]);
    if c in s {
      var j :| 0 <= j < |s| && s[j] == c;
      assert s[j..j + 1] == [c];
      assert OccursAt(s, [c], j);
    }
    if Contains(s, [c]) {
      var j: nat :| OccursAt(s, [c], j);
      assert s[j] == s[j..j + 1][0];
    }
  }

  // ---------------------------------------------------------------------
  // Splitting

  /** String.split(sep, 2) for a literal, non-empty separator: the text
      before the first occurrence and everything after it, or the whole
      string alone when the separator does not occur. */
  function SplitOnce(s: string, sep: string): (parts: seq<string>)
    requires sep != []
    ensures 1 <= |parts| <= 2
    ensures |parts| == 2 <==> Contains(s, sep)
    ensures |parts| == 1 ==> parts[0] == s
    ensures |parts| == 2 ==> s == parts[0] + sep + parts[1]
    ensures |parts| == 2 ==> IndexOf(s, sep) == Some(|parts[0]|)
  {
    match IndexOf(s, sep)
    case None => [s]
    case Some(i) =>
      assert s == s[..i] + sep + s[i + |sep|..] by {
        assert s[i..i + |sep|] == sep;
        assert s == s[..i] + s[i..i + |sep|] + s[i + |sep|..];
      }
      [s[..i], s[i + |sep|..]]
  }

  /** Concatenation of `ps` with `sep` between neighbours. */
  function Join(ps: seq<string>, sep: string): string
  {
    if |ps| == 0 then []
    else if |ps| == 1 then ps[0]
    else ps[0] + sep + Join(ps[1..], sep)
  }

  /** Every piece of `s` between occurrences of `c`, empty pieces included
      (what String.split finds before it discards trailing empty pieces). */
  function Pieces(s: string, c: char): (ps: seq<string>)
    ensures |ps| >= 1
  {
    if s == [] then [[]]
    else
      var rest := Pieces(s[1..], c);
      if s[0] == c then [[]] + rest
      else [[s[0]] + rest[0]] + rest[1..]
  }

  /** No piece holds the separator, there is more than one piece exactly
      when the separator occurs, and the first piece is the text before the
      first separator. */
  lemma {:induction false} PiecesShape(s: string, c: char)
    ensures var ps := Pieces(s, c);
      && (forall k :: 0 <= k < |ps| ==> c !in ps[k])
      && (|ps| == 1 <==> c !in s)
      && ps[0] <= s && (ps[0] == s || s[|ps[0]|] == c)
    decreases |s|
  {
    if s != [] {
      PiecesShape(s[1..], c);
      var rest := Pieces(s[1..], c);
      if s[0] != c {
        var ps := Pieces(s, c);
        assert ps[0] == [s[0]] + rest[0];
        forall k | 0 <= k < |ps| ensures c !in ps[k] {
          if k > 0 {
            assert ps[k] == rest[k];
          }
        }
        assert c in s[1..] ==> c in s by {
          if c in s[1..] {
            var j :| 0 <= j < |s[1..]| && s[1..][j] == c;
            assert s[j + 1] == c;
          }
        }
      } else {
        var ps := Pieces(s, c);
        assert ps[0] == [] && s[0] == c;
        forall k | 0 <= k < |ps| ensures c !in ps[k] {
          if k > 0 {
            assert ps[k] == rest[k - 1];
          }
        }
      }
    }
  }

  /** The list with its trailing empty strings removed. */
  function DropTrailingEmpty(ps: seq<string>): seq<string>
  {
    if |ps| > 0 && ps[|ps| - 1] == [] then DropTrailingEmpty(ps[..|ps| - 1]) else ps
  }

  /** What is dropped is exactly the run of empty strings at the end: the
      result is a prefix that is empty or ends in a non-empty string. */
  lemma {:induction false} DropTrailingEmptyShape(ps: seq<string>)
    ensures var r := DropTrailingEmpty(ps);
      && r <= ps
      && (r == [] || r[|r| - 1] != [])
      && (forall k :: |r| <= k < |ps| ==> ps[k] == [])
    decreases |ps|
  {
    if |ps| > 0 && ps[|ps| - 1] == [] {
      DropTrailingEmptyShape(ps[..|ps| - 1]);
    }
  }

  /** String.split(c) with the default limit 0, for a one-character
      separator: all pieces, then trailing empty ones dropped; a string in
      which `c` does not occur comes back whole, even when it is empty. */
  function Split(s: string, c: char): seq<string>
  {
    if c !in s then [s] else DropTrailingEmpty(Pieces(s, c))
  }

  lemma {:induction false} PiecesJoin(s: string, c: char)
    ensures Join(Pieces(s, c), [c]) == s
    decreases |s|
  {
    if s != [] {
      var rest := Pieces(s[1..], c);
      PiecesJoin(s[1..], c);
      if s[0] == c {
        assert ([[]] + rest)[1..] == rest;
      } else {
        var ps := [[s[0]] + rest[0]] + rest[1..];
        if |rest| > 1 {
          assert ps[1..] == rest[1..];
        }
      }
    }
  }

  /** Two prefixes of `s` that both stop at the first `c` (or at the end)
      are the same prefix. */
  lemma FirstPieceUnique(s: string, c: char, p: string, q: string)
    requires p <= s && c !in p && (p == s || s[|p|] == c)
    requires q <= s && c !in q && (q == s || s[|q|] == c)
    ensures p == q
  {
  }

  /** The first part of SplitOnce(s, " ") is the text before the first
      space: a space-free prefix that is all of `s` or is followed by one. */
  lemma SplitOnceFirstWord(s: string)
    ensures var w := SplitOnce(s, " ")[0];
      w <= s && ' ' !in w && (w == s || s[|w|] == ' ')
  {
    var once := SplitOnce(s, " ");
    if |once| == 2 {
      var i := IndexOf(s, " ").value;
      assert once[0] == s[..i];
      ContainsChar(once[0], ' ');
      ContainsOccurs(once[0], " ");
      if Contains(once[0], " ") {
        var j: nat :| OccursAt(once[0], " ", j);
        assert s[j..j + 1] == once[0][j..j + 1];
        assert OccursAt(s, " ", j);
        assert false;
      }
      assert s[i..i + 1] == " ";
    } else {
      ContainsChar(s, ' ');
    }
  }

  /** The word `process` routes on, Split(line, ' ')[0], is the word the add
      path looks at, SplitOnce(line, " ")[0]: the text before the first space. */
  lemma SplitFirstWord(s: string)
    requires |Split(s, ' ')| > 0
    ensures Split(s, ' ')[0] == SplitOnce(s, " ")[0]
  {
    var ps := Pieces(s, ' ');
    PiecesShape(s, ' ');
    DropTrailingEmptyShape(ps);
    assert Split(s, ' ')[0] == ps[0];
    SplitOnceFirstWord(s);
    FirstPieceUnique(s, ' ', ps[0], SplitOnce(s, " ")[0]);
  }

  /** Splitting after a separator-free word: the word is the first piece
      and the rest is split on its own. */
  lemma {:induction false} PiecesAfterWord(w: string, c: char, rest: string)
    requires c !in w
    ensures Pieces(w + [c] + rest, c) == [w] + Pieces(rest, c)
    decreases |w|
  {
    var s := w + [c] + rest;
    if w == [] {
      assert s[1..] == rest;
    } else {
      assert s[1..] == w[1..] + [c] + rest;
      PiecesAfterWord(w[1..], c, rest);
      var tail := Pieces(s[1..], c);
      assert tail == [w[1..]] + Pieces(rest, c);
      assert s[0] == w[0] != c;
      assert Pieces(s, c) == [[s[0]] + tail[0]] + tail[1..];
      assert [w[0]] + w[1..] == w;
      assert tail[1..] == Pieces(rest, c);
    }
  }

  /** A string free of `c` is one piece. */
  lemma PiecesOfWord(w: string, c: char)
    requires c !in w
    ensures Pieces(w, c) == [w]
  {
    PiecesShape(w, c);
    var ps := Pieces(w, c);
    assert |ps| == 1 && ps[0] == w;
  }

  lemma {:induction false} PiecesOfSeparatorsOnly(s: string, c: char)
    requires forall k :: 0 <= k < |s| ==> s[k] == c
    ensures forall k :: 0 <= k < |Pieces(s, c)| ==> Pieces(s, c)[k] == []
    decreases |s|
  {
    if s != [] {
      PiecesOfSeparatorsOnly(s[1..], c);
    }
  }

  lemma {:induction false} JoinOfEmpties(ps: seq<string>, c: char)
    requires forall k :: 0 <= k < |ps| ==> ps[k] == []
    ensures forall k :: 0 <= k < |Join(ps, [c])| ==> Join(ps, [c])[k] == c
  {
    if |ps| > 1 {
      JoinOfEmpties(ps[1..], c);
    }
  }

  /** String.split(c) returns no element at all exactly for a non-empty
      string made only of separators. */
  lemma SplitEmpty(s: string, c: char)
    ensures |Split(s, c)| == 0 <==> s != [] && forall k :: 0 <= k < |s| ==> s[k] == c
  {
    var ps := Pieces(s, c);
    PiecesShape(s, c);
    DropTrailingEmptyShape(ps);
    if s != [] && forall k :: 0 <= k < |s| ==> s[k] == c {
      assert s[0] == c;
      PiecesOfSeparatorsOnly(s, c);
    }
    if |Split(s, c)| == 0 {
      assert c in s;
      assert forall k :: 0 <= k < |ps| ==> ps[k] == [];
      PiecesJoin(s, c);
      JoinOfEmpties(ps, c);
    }
  }

  // ---------------------------------------------------------------------
  // Trimming

  /** String.trim removes every leading and trailing char up to U+0020. */
  predicate IsTrimmed(c: char)
  {
    c <= ' '
  }

  function TrimStart(s: string): string
  {
    if s != [] && IsTrimmed(s[0]) then TrimStart(s[1..]) else s
  }

  /** TrimStart cuts a run of such chars off the front, and no more. */
  lemma {:induction false} TrimStartShape(s: string)
    ensures var r := TrimStart(s);
      && |r| <= |s| && r == s[|s| - |r|..]
      && (r == [] || !IsTrimmed(r[0]))
      && (forall k :: 0 <= k < |s| - |r| ==> IsTrimmed(s[k]))
    decreases |s|
  {
    if s != [] && IsTrimmed(s[0]) {
      TrimStartShape(s[1..]);
      var r := TrimStart(s);
      forall k | 0 < k < |s| - |r| ensures IsTrimmed(s[k]) {
        assert s[k] == s[1..][k - 1];
      }
    }
  }

  function TrimEnd(s: string): string
  {
    if s != [] && IsTrimmed(s[|s| - 1]) then TrimEnd(s[..|s| - 1]) else s
  }

  /** TrimEnd cuts a run of such chars off the back, and no more. */
  lemma {:induction false} TrimEndShape(s: string)
    ensures var r := TrimEnd(s);
      && r <= s
      && (r == [] || !IsTrimmed(r[|r| - 1]))
      && (forall k :: |r| <= k < |s| ==> IsTrimmed(s[k]))
    decreases |s|
  {
    if s != [] && IsTrimmed(s[|s| - 1]) {
      TrimEndShape(s[..|s| - 1]);
    }
  }

  /** `r` is the slice of `s` that starts at `a`, and every char of `s`
      outside it is one that trim removes. */
  predicate TrimmedSlice(s: string, a: int, r: string)
  {
    && 0 <= a && a + |r| <= |s| && r == s[a..a + |r|]
    && (forall k :: 0 <= k < a ==> IsTrimmed(s[k]))
    && (forall k :: a + |r| <= k < |s| ==> IsTrimmed(s[k]))
  }

  /** String.trim: leading, then trailing chars up to U+0020 removed. */
  function Trim(s: string): string
  {
    TrimEnd(TrimStart(s))
  }

  /** The trimmed string is the longest middle slice of `s` that neither
      starts nor ends with a char up to U+0020; everything cut off is such
      a char. */
  lemma TrimLayout(s: string)
    ensures var r := Trim(s);
      && (r == [] || (!IsTrimmed(r[0]) && !IsTrimmed(r[|r| - 1])))
      && TrimmedSlice(s, |s| - |TrimStart(s)|, r)
  {
    var t := TrimStart(s);
    var r := TrimEnd(t);
    assert Trim(s) == r;
    TrimStartShape(s);
    TrimEndShape(t);
    TrimSlice(s, t, r);
    assert r != [] ==> !IsTrimmed(r[0]) && !IsTrimmed(r[|r| - 1]);
  }

  lemma TrimSlice(s: string, t: string, r: string)
    requires |t| <= |s| && t == s[|s| - |t|..]
    requires forall k :: 0 <= k < |s| - |t| ==> IsTrimmed(s[k])
    requires r <= t && forall k :: |r| <= k < |t| ==> IsTrimmed(t[k])
    ensures TrimmedSlice(s, |s| - |t|, r)
    ensures r != [] ==> r[0] == t[0]
  {
    var a := |s| - |t|;
    forall k | a + |r| <= k < |s| ensures IsTrimmed(s[k]) {
      assert s[k] == t[k - a];
    }
  }

  /** A string that already neither starts nor ends with such a char is
      its own trim; in particular trimming twice is trimming once. */
  lemma TrimFixed(s: string)
    requires s == [] || (!IsTrimmed(s[0]) && !IsTrimmed(s[|s| - 1]))
    ensures Trim(s) == s
  {
  }

  lemma TrimIdempotent(s: string)
    ensures Trim(Trim(s)) == Trim(s)
  {
    TrimLayout(s);
    TrimFixed(Trim(s));
  }

  // ---------------------------------------------------------------------
  // Decimal digits

  predicate IsDigit(c: char)
  {
    '0' <= c <= '9'
  }

  predicate AllDigits(s: string)
  {
    forall k :: 0 <= k < |s| ==> IsDigit(s[k])
  }

  function DigitValue(c: char): nat
    requires IsDigit(c)
  {
    c as int - '0' as int
  }

  function DigitChar(d: nat): (c: char)
    requires d < 10
    ensures IsDigit(c) && DigitValue(c) == d
  {
    ('0' as int + d) as char
  }

  function Pow10(n: nat): (p: nat)
    ensures p >= 1
  {
    if n == 0 then 1 else 10 * Pow10(n - 1)
  }

  /** The number a string of decimal digits denotes (leading zeros allowed). */
  function DigitsValue(s: string): (v: nat)
    requires AllDigits(s)
    ensures v < Pow10(|s|)
  {
    if s == [] then 0 else 10 * DigitsValue(s[..|s| - 1]) + DigitValue(s[|s| - 1])
  }

  /** `n` written with exactly `width` digits, zero-padded on the left. */
  function PadDigits(n: nat, width: nat): (r: string)
    requires n < Pow10(width)
    ensures |r| == width && AllDigits(r) && DigitsValue(r) == n
  {
    if width == 0 then []
    else
      var p := PadDigits(n / 10, width - 1);
      var r := p + [DigitChar(n % 10)];
      assert r[..|r| - 1] == p;
      r
  }

  /** Reading a digit string and padding the value back to the same width
      gives the string back. */
  lemma {:induction false} PadDigitsOfValue(s: string)
    requires AllDigits(s)
    ensures PadDigits(DigitsValue(s), |s|) == s
  {
    if s != [] {
      var p := s[..|s| - 1];
      var d := s[|s| - 1];
      PadDigitsOfValue(p);
      var v := DigitsValue(s);
      assert v / 10 == DigitsValue(p) && v % 10 == DigitValue(d);
      assert DigitChar(DigitValue(d)) == d;
      assert s == p + [d];
    }
  }

  /** Integer.toString(n) for n >= 0. */
  function DecimalString(n: nat): string
  {
    if n < 10 then [DigitChar(n)] else DecimalString(n / 10) + [DigitChar(n % 10)]
  }

  /** The decimal form of `n` is a non-empty run of digits denoting `n`,
      with no leading zero. */
  lemma {:induction false} DecimalStringDigits(n: nat)
    ensures var r := DecimalString(n);
      && |r| >= 1 && AllDigits(r) && DigitsValue(r) == n
      && (r[0] == '0' ==> n == 0)
  {
    if n >= 10 {
      DecimalStringDigits(n / 10);
      var p := DecimalString(n / 10);
      var r := DecimalString(n);
      assert r[..|r| - 1] == p && r[0] == p[0];
    }
  }

  const MinInt: int := -0x8000_0000
  const MaxInt: int := 0x7fff_ffff

  /** String.valueOf(n) for a Java int, as `counter + "."` renders it. */
  function IntString(n: int): string
  {
    if n < 0 then "-" + DecimalString(-n) else DecimalString(n)
  }

  /** Integer.parseInt: an optional '+' or '-', then one or more decimal
      digits, denoting a value in the 32-bit int range; anything else is a
      NumberFormatException (None). */
  function ParseInt(s: string): (r: Option<int>)
    ensures r.Some? ==> MinInt <= r.value <= MaxInt
    ensures r.Some? ==> s != [] && (s[0] == '-' || s[0] == '+' || IsDigit(s[0]))
    ensures r.Some? ==>
      var rest := if s[0] == '-' || s[0] == '+' then s[1..] else s;
      && rest != [] && AllDigits(rest)
      && r.value == (if s[0] == '-' then -(DigitsValue(rest) as int) else DigitsValue(rest))
  {
    if s == [] then None
    else
      var digits := if s[0] == '-' || s[0] == '+' then s[1..] else s;
      if digits == [] || !AllDigits(digits) then None
      else
        var v: int := if s[0] == '-' then -(DigitsValue(digits) as int) else DigitsValue(digits);
        if MinInt <= v <= MaxInt then Some(v) else None
  }

  /** Every int survives being written out and parsed back. */
  lemma ParseIntString(n: int)
    requires MinInt <= n <= MaxInt
    ensures ParseInt(IntString(n)) == Some(n)
  {
    if n < 0 {
      DecimalStringDigits(-n);
      assert IntString(n)[1..] == DecimalString(-n);
    } else {
      DecimalStringDigits(n);
    }
  }

  /** Every optionally signed, non-empty run of digits whose value fits an
      int is accepted with that value, and one whose value does not fit is
      rejected: with the contract of ParseInt, this is exactly the set of
      strings Integer.parseInt accepts. */
  lemma ParseIntSigned(sign: string, digits: string)
    requires sign == "" || sign == "+" || sign == "-"
    requires digits != [] && AllDigits(digits)
    ensures var v: int := if sign == "-" then -(DigitsValue(digits) as int) else DigitsValue(digits);
      ParseInt(sign + digits) == if MinInt <= v <= MaxInt then Some(v) else None
  {
    var s := sign + digits;
    if sign == "" {
      assert s == digits;
      assert !(s[0] == '-' || s[0] == '+') by {
        assert IsDigit(digits[0]);
      }
    } else {
      assert s[0] == sign[0] && s[1..] == digits;
    }
  }

  /** A leading '+', leading zeros and "-0" are all accepted, as
      Integer.parseInt accepts them; a bare sign is not. */
  lemma ParseIntLenient()
    ensures ParseInt("+5") == Some(5)
    ensures ParseInt("007") == Some(7)
    ensures ParseInt("-0") == Some(0)
    ensures ParseInt("-") == None && ParseInt("+") == None
  {
    ParseIntSigned("+", "5");
    ParseIntSigned("", "007");
    ParseIntSigned("-", "0");
  }
}
