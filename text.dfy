/** The string operations the configuration core relies on: ASCII `str.upper`,
    `str.replace(' ', '')`, `str.split(sep)` with its inverse `sep.join`, and
    `int()` on decimal text with its inverse `str()`. */
module Text {
  import opened Python

  // ---------------------------------------------------------------------------
  // Upper-casing and space removal

  /** ASCII case mapping of one character; every other character is kept. */
  function UpperChar(c: char): char
  {
    if 'a' <= c <= 'z' then (c as int - 32) as char else c
  }

  /** `s.upper()` restricted to ASCII. */
  function Upper(s: string): (u: string)
    ensures |u| == |s|
    ensures forall i :: 0 <= i < |s| ==> u[i] == UpperChar(s[i])
  {
    seq(|s|, i requires 0 <= i < |s| => UpperChar(s[i]))
  }

  /** `s.replace(' ', '')`: only the space character goes, tabs and newlines stay. */
  function RemoveSpaces(s: string): (r: string)
    ensures ' ' !in r
    ensures |r| <= |s|
  {
    if s == [] then []
    else if s[0] == ' ' then RemoveSpaces(s[1..])
    else [s[0]] + RemoveSpaces(s[1..])
  }

  /** The normal form `parse_size` works on: upper-cased, then spaces removed.
      It holds no space, and upper-casing leaves it unchanged. */
  function Normalize(s: string): (r: string)
    ensures ' ' !in r
    ensures Upper(r) == r
  {
    UpperRemoveSpacesCommute(Upper(s));
    UpperIdempotent(s);
    RemoveSpaces(Upper(s))
  }

  lemma UpperIdempotent(s: string)
    ensures Upper(Upper(s)) == Upper(s)
  {
  }

  lemma UpperAppend(a: string, b: string)
    ensures Upper(a + b) == Upper(a) + Upper(b)
  {
  }

  /** Text without spaces is left alone by RemoveSpaces. */
  lemma {:induction false} RemoveSpacesNoSpace(s: string)
    requires ' ' !in s
    ensures RemoveSpaces(s) == s
  {
    if s != [] {
      RemoveSpacesNoSpace(s[1..]);
    }
  }

  lemma {:induction false} RemoveSpacesAppend(a: string, b: string)
    ensures RemoveSpaces(a + b) == RemoveSpaces(a) + RemoveSpaces(b)
  {
    if a != [] {
      assert (a + b)[1..] == a[1..] + b;
      RemoveSpacesAppend(a[1..], b);
    } else {
      assert a + b == b;
    }
  }

  /** Exactly the spaces are removed: the result is shorter by their number. */
  lemma {:induction false} RemoveSpacesLength(s: string)
    ensures |RemoveSpaces(s)| == |s| - multiset(s)[' ']
  {
    if s != [] {
      RemoveSpacesLength(s[1..]);
      assert s == [s[0]] + s[1..];
    }
  }

  /** Upper-casing and space removal can be done in either order. */
  lemma {:induction false} UpperRemoveSpacesCommute(s: string)
    ensures Upper(RemoveSpaces(s)) == RemoveSpaces(Upper(s))
  {
    if s != [] {
      UpperRemoveSpacesCommute(s[1..]);
      assert Upper(s) == [UpperChar(s[0])] + Upper(s[1..]);
      if s[0] != ' ' {
        UpperAppend([s[0]], RemoveSpaces(s[1..]));
      }
    }
  }

  /** Normalizing twice is normalizing once. */
  lemma NormalizeIdempotent(s: string)
    ensures Normalize(Normalize(s)) == Normalize(s)
  {
    var r := Normalize(s);
    UpperRemoveSpacesCommute(Upper(s));
    UpperIdempotent(s);
    assert Upper(r) == r;
    RemoveSpacesNoSpace(r);
  }

  /** Normalization ignores the case of ASCII letters. */
  lemma NormalizeIgnoresCase(s: string)
    ensures Normalize(Upper(s)) == Normalize(s)
  {
    UpperIdempotent(s);
  }

  /** Normalization ignores a space inserted anywhere. */
  lemma NormalizeIgnoresSpace(a: string, b: string)
    ensures Normalize(a + " " + b) == Normalize(a + b)
  {
    UpperAppend(a + " ", b);
    UpperAppend(a, " ");
    UpperAppend(a, b);
    RemoveSpacesAppend(Upper(a) + " ", Upper(b));
    RemoveSpacesAppend(Upper(a), " ");
    RemoveSpacesAppend(Upper(a), Upper(b));
    assert Upper(" ") == " ";
    assert RemoveSpaces(" ") == [];
  }

  // ---------------------------------------------------------------------------
  // str.split(sep) and sep.join(parts)

  /** `s.split(sep)` for a one-character separator: the pieces between the
      separators, empty pieces included, so `"".split(sep) == [""]`. */
  function Split(s: string, sep: char): (parts: seq<string>)
    ensures |parts| >= 1
    decreases |s|
  {
    if s == [] then [""]
    else
      var rest := Split(s[1..], sep);
      if s[0] == sep then [""] + rest
      else [[s[0]] + rest[0]] + rest[1..]
  }

  /** `sep.join(parts)`. */
  function Join(parts: seq<string>, sep: char): string
  {
    if parts == [] then ""
    else if |parts| == 1 then parts[0]
    else parts[0] + [sep] + Join(parts[1..], sep)
  }

  lemma {:induction false} JoinConsFirst(c: char, parts: seq<string>, sep: char)
    requires |parts| >= 1
    ensures Join([[c] + parts[0]] + parts[1..], sep) == [c] + Join(parts, sep)
  {
    var q := [[c] + parts[0]] + parts[1..];
    assert q[1..] == parts[1..];
  }

  /** Joining the pieces of a split gives back the original text. */
  lemma {:induction false} JoinSplit(s: string, sep: char)
    ensures Join(Split(s, sep), sep) == s
    decreases |s|
  {
    if s != [] {
      var rest := Split(s[1..], sep);
      JoinSplit(s[1..], sep);
      if s[0] == sep {
        assert ([""] + rest)[1..] == rest;
      } else {
        JoinConsFirst(s[0], rest, sep);
      }
      assert s == [s[0]] + s[1..];
    }
  }

  /** A split has one more piece than the text has separators, and no piece
      contains the separator. */
  lemma {:induction false} SplitShape(s: string, sep: char)
    ensures |Split(s, sep)| == multiset(s)[sep] + 1
    ensures forall i :: 0 <= i < |Split(s, sep)| ==> sep !in Split(s, sep)[i]
    decreases |s|
  {
    if s != [] {
      SplitShape(s[1..], sep);
      assert s == [s[0]] + s[1..];
      assert multiset(s) == multiset([s[0]]) + multiset(s[1..]);
      var rest := Split(s[1..], sep);
      var parts := Split(s, sep);
      if s[0] != sep {
        forall i | 0 <= i < |parts| ensures sep !in parts[i] {
          if i > 0 {
            assert parts[i] == rest[i];
          } else {
            assert sep !in rest[0];
          }
        }
      } else {
        forall i | 0 <= i < |parts| ensures sep !in parts[i] {
          if i > 0 {
            assert parts[i] == rest[i - 1];
          }
        }
      }
    }
  }

  /** Splitting text whose first piece `p` contains no separator. */
  lemma {:induction false} SplitNoSepPrefix(p: string, t: string, sep: char)
    requires sep !in p
    ensures Split(p + t, sep) == [p + Split(t, sep)[0]] + Split(t, sep)[1..]
    decreases |p|
  {
    if p != [] {
      SplitNoSepPrefix(p[1..], t, sep);
      assert (p + t)[1..] == p[1..] + t;
      var parts, rest := Split(t, sep), Split(p[1..] + t, sep);
      assert rest[0] == p[1..] + parts[0] && rest[1..] == parts[1..];
      assert [p[0]] + (p[1..] + parts[0]) == p + parts[0];
    } else {
      var parts := Split(t, sep);
      assert p + t == t;
      assert p + parts[0] == parts[0];
      assert parts == [parts[0]] + parts[1..];
    }
  }

  /** Splitting the join of separator-free pieces gives the pieces back. */
  lemma {:induction false} SplitJoin(parts: seq<string>, sep: char)
    requires |parts| >= 1
    requires forall i :: 0 <= i < |parts| ==> sep !in parts[i]
    ensures Split(Join(parts, sep), sep) == parts
  {
    if |parts| == 1 {
      SplitNoSepPrefix(parts[0], [], sep);
      assert parts[0] + [] == parts[0];
    } else {
      var tail := Join(parts[1..], sep);
      SplitJoin(parts[1..], sep);
      assert Split([sep] + tail, sep) == [""] + Split(tail, sep) by {
        assert ([sep] + tail)[1..] == tail;
      }
      SplitNoSepPrefix(parts[0], [sep] + tail, sep);
      assert parts[0] + [sep] + tail == parts[0] + ([sep] + tail);
      assert parts[0] + "" == parts[0];
      assert parts == [parts[0]] + parts[1..];
    }
  }

  /** The split is the only list of separator-free pieces that joins back to
      the text. */
  lemma SplitUnique(ps: seq<string>, s: string, sep: char)
    requires |ps| >= 1
    requires forall i :: 0 <= i < |ps| ==> sep !in ps[i]
    requires Join(ps, sep) == s
    ensures ps == Split(s, sep)
  {
    SplitJoin(ps, sep);
  }

  // ---------------------------------------------------------------------------
  // int() and str() on decimal integers

  predicate IsDigit(c: char)
  {
    '0' <= c <= '9'
  }

  predicate AllDigits(s: string)
  {
    forall i :: 0 <= i < |s| ==> IsDigit(s[i])
  }

  /** The value of a string of decimal digits, most significant first. */
  function DigitsValue(d: string): nat
    requires AllDigits(d)
  {
    if d == [] then 0
    else DigitsValue(d[..|d| - 1]) * 10 + (d[|d| - 1] as int - '0' as int)
  }

  /** The text `int()` accepts in this model: an optional sign, then one or
      more ASCII decimal digits, and nothing else. */
  predicate IsIntegerText(s: string)
  {
    && |s| > 0
    && (s[0] == '+' || s[0] == '-' || IsDigit(s[0]))
    && (forall i :: 0 < i < |s| ==> IsDigit(s[i]))
    && (!IsDigit(s[0]) ==> |s| >= 2)
  }

  /** `int(s)`: `None` stands for the ValueError it raises. */
  function ParseInt(s: string): (r: Option<int>)
    ensures r.Some? <==> IsIntegerText(s)
  {
    if |s| > 0 && (s[0] == '+' || s[0] == '-') then
      var d := s[1..];
      if |d| > 0 && AllDigits(d) then
        var v: int := DigitsValue(d);
        Some(if s[0] == '-' then -v else v)
      else None
    else if |s| > 0 && AllDigits(s) then Some(DigitsValue(s))
    else None
  }

  function DigitChar(k: nat): char
    requires k < 10
  {
    ('0' as int + k) as char
  }

  /** `str(n)` for a natural number. */
  function NatToString(n: nat): (s: string)
    ensures |s| >= 1 && AllDigits(s)
  {
    if n < 10 then [DigitChar(n)]
    else NatToString(n / 10) + [DigitChar(n % 10)]
  }

  /** `str(n)`: a minus sign before the digits of a negative number. */
  function IntToString(n: int): string
  {
    if n < 0 then "-" + NatToString(-n) else NatToString(n)
  }

  lemma {:induction false} DigitsValueOfNatToString(n: nat)
    ensures DigitsValue(NatToString(n)) == n
  {
    var s := NatToString(n);
    if n >= 10 {
      DigitsValueOfNatToString(n / 10);
      assert s[..|s| - 1] == NatToString(n / 10);
    }
  }

  /** `int(str(n)) == n` for every integer. */
  lemma IntToStringRoundTrip(n: int)
    ensures ParseInt(IntToString(n)) == Some(n)
  {
    var s := IntToString(n);
    if n < 0 {
      var d := NatToString(-n);
      DigitsValueOfNatToString(-n);
      assert s == "-" + d && s[0] == '-' && s[1..] == d;
      assert |d| > 0 && AllDigits(d);
    } else {
      DigitsValueOfNatToString(n);
      assert s == NatToString(n) && IsDigit(s[0]);
    }
  }

  /** A sign in front of the digits: '+' keeps the value, '-' negates it. */
  lemma ParseIntSign(d: string)
    requires |d| > 0 && AllDigits(d)
    ensures ParseInt("+" + d) == ParseInt(d)
    ensures ParseInt("-" + d) == Some(-ParseInt(d).value)
  {
    assert ("+" + d)[0] == '+' && ("+" + d)[1..] == d;
    assert ("-" + d)[0] == '-' && ("-" + d)[1..] == d;
  }

  /** A leading zero does not change the value of a digit string. */
  lemma {:induction false} DigitsValueLeadingZero(d: string)
    requires AllDigits(d)
    ensures AllDigits("0" + d) && DigitsValue("0" + d) == DigitsValue(d)
    decreases |d|
  {
    var z := "0" + d;
    if d == [] {
      assert z[..0] == "";
    } else {
      var init := d[..|d| - 1];
      DigitsValueLeadingZero(init);
      assert z[..|z| - 1] == "0" + init;
      assert z[|z| - 1] == d[|d| - 1];
    }
  }

  /** `int("0" + d) == int(d)` for a non-empty digit string d. */
  lemma ParseIntLeadingZero(d: string)
    requires |d| > 0 && AllDigits(d)
    ensures ParseInt("0" + d) == ParseInt(d)
  {
    DigitsValueLeadingZero(d);
  }

  /** `str(n)` contains neither spaces nor letters and ends with a digit. */
  lemma IntToStringShape(n: int)
    ensures |IntToString(n)| >= 1
    ensures IsDigit(IntToString(n)[|IntToString(n)| - 1])
    ensures forall i :: 0 <= i < |IntToString(n)| ==>
      IsDigit(IntToString(n)[i]) || IntToString(n)[i] == '-'
  {
  }
}
