/** `parse_size` (config.py): human-readable byte sizes such as "10M" or "2g". */
module SizeParser {
  import opened Python
  import opened Text

  /** The unit letters `parse_size` understands; `Bytes` is the bare number. */
  datatype Unit = Bytes | Kilo | Mega | Giga

  function Suffix(u: Unit): string
  {
    match u
    case Bytes => ""
    case Kilo => "K"
    case Mega => "M"
    case Giga => "G"
  }

  function Multiplier(u: Unit): nat
  {
    match u
    case Bytes => 1
    case Kilo => 1024
    case Mega => 1024 * 1024
    case Giga => 1024 * 1024 * 1024
  }

  predicate IsUnitLetter(c: char)
  {
    c == 'G' || c == 'M' || c == 'K'
  }

  /** The normalized text `parse_size` accepts: an integer, optionally followed
      by exactly one unit letter. */
  predicate IsSizeText(t: string)
  {
    || IsIntegerText(t)
    || (|t| >= 1 && IsUnitLetter(t[|t| - 1]) && IsIntegerText(t[..|t| - 1]))
  }

  /** `int(text) * m`, raising ValueError when `int` does. */
  function Scaled(n: Option<int>, m: nat): Result<int>
  {
    match n
    case Some(v) => Ok(v * m)
    case None => Err(ValueError)
  }

  /** `parse_size` on text that is already upper-cased and free of spaces:
      strip one trailing G, M or K and scale the integer before it. */
  function ParseNormal(s: string): (r: Result<int>)
    ensures r.Err? ==> r.error == ValueError
    ensures r.Ok? <==> IsSizeText(s)
  {
    if |s| > 0 && s[|s| - 1] == 'G' then Scaled(ParseInt(s[..|s| - 1]), 1024 * 1024 * 1024)
    else if |s| > 0 && s[|s| - 1] == 'M' then Scaled(ParseInt(s[..|s| - 1]), 1024 * 1024)
    else if |s| > 0 && s[|s| - 1] == 'K' then Scaled(ParseInt(s[..|s| - 1]), 1024)
    else Scaled(ParseInt(s), 1)
  }

  /** `parse_size(size)`: upper-case, drop spaces, then parse; ValueError when
      the part before the unit letter is not an integer. */
  function ParseSize(size: string): (r: Result<int>)
    ensures r.Err? ==> r.error == ValueError
    ensures r.Ok? <==> IsSizeText(Normalize(size))
  {
    ParseNormal(Normalize(size))
  }

  /** Text made of digits, signs and upper-case unit letters is already normal. */
  lemma NormalFormFixed(t: string)
    requires forall i :: 0 <= i < |t| ==> IsDigit(t[i]) || t[i] == '-' || IsUnitLetter(t[i])
    ensures Normalize(t) == t
  {
    assert Upper(t) == t;
    RemoveSpacesNoSpace(t);
  }

  /** An integer text ending in a digit, followed by a unit suffix, parses to
      the integer times that unit. */
  lemma ParseNormalOfUnit(d: string, n: int, u: Unit)
    requires ParseInt(d) == Some(n)
    requires |d| > 0 && IsDigit(d[|d| - 1])
    ensures ParseNormal(d + Suffix(u)) == Ok(n * Multiplier(u))
  {
    var t := d + Suffix(u);
    if u == Bytes {
      assert t == d;
    } else {
      assert t[|t| - 1] == Suffix(u)[0];
      assert t[..|t| - 1] == d;
    }
  }

  /** `parse_size(str(n) + unit) == n * scale(unit)` for every integer n. */
  lemma ParseSizeOfUnit(n: int, u: Unit)
    ensures ParseSize(IntToString(n) + Suffix(u)) == Ok(n * Multiplier(u))
  {
    var d := IntToString(n);
    IntToStringShape(n);
    IntToStringRoundTrip(n);
    NormalFormFixed(d + Suffix(u));
    ParseNormalOfUnit(d, n, u);
  }

  /** `parse_size` gives the same answer for a text and its normal form. */
  lemma ParseSizeNormalized(s: string)
    ensures ParseSize(Normalize(s)) == ParseSize(s)
  {
    NormalizeIdempotent(s);
  }

  /** Lower- and upper-case unit letters mean the same. */
  lemma ParseSizeIgnoresCase(s: string)
    ensures ParseSize(Upper(s)) == ParseSize(s)
  {
    NormalizeIgnoresCase(s);
  }

  /** A space anywhere in the text makes no difference. */
  lemma ParseSizeIgnoresSpace(a: string, b: string)
    ensures ParseSize(a + " " + b) == ParseSize(a + b)
  {
    NormalizeIgnoresSpace(a, b);
  }

  /** Appending a unit letter to a plain size scales it by that unit. */
  lemma ParseSizeAppendUnit(s: string, v: int, u: Unit)
    requires ParseSize(s) == Ok(v)
    requires |Normalize(s)| > 0 && IsDigit(Normalize(s)[|Normalize(s)| - 1])
    ensures ParseSize(s + Suffix(u)) == Ok(v * Multiplier(u))
  {
    var t := Normalize(s);
    var w := t + Suffix(u);
    UpperAppend(s, Suffix(u));
    assert Upper(Suffix(u)) == Suffix(u);
    RemoveSpacesAppend(Upper(s), Suffix(u));
    RemoveSpacesNoSpace(Suffix(u));
    assert Normalize(s + Suffix(u)) == w;
    assert ParseInt(t) == Some(v);
    ParseNormalOfUnit(t, v, u);
  }

  /** "5m", " 5 M " and "5M" all mean five mebibytes. */
  lemma ParseSizeExamples()
    ensures ParseSize("5m") == ParseSize(" 5 M ") == ParseSize("5M") == Ok(5 * 1024 * 1024)
  {
    assert Normalize("5m") == "5M";
    assert Normalize(" 5 M ") == "5M";
    assert Normalize("5M") == "5M";
    assert "5M"[..1] == "5";
    assert "5"[..0] == "";
    assert ParseNormal("5M") == Ok(5 * 1024 * 1024);
  }

  /** "10M" is ten mebibytes. */
  lemma ParseSizeMoreExamples()
    ensures ParseSize("10M") == Ok(10485760)
  {
    assert Normalize("10M") == "10M";
    assert "10M"[..2] == "10";
    assert DigitsValue("10") == 10 by {
      assert "10"[..1] == "1";
      assert "1"[..0] == "";
    }
    assert ParseNormal("10M") == Ok(10485760);
  }

  /** A lower-case "k" counts as kibibytes. */
  lemma ParseSizeKiloExample()
    ensures ParseSize("4k") == Ok(4096)
  {
    assert Normalize("4k") == "4K";
    assert "4K"[..1] == "4";
    assert "4"[..0] == "";
    assert ParseNormal("4K") == Ok(4096);
  }

  /** A bare negative number is accepted as it is. */
  lemma ParseSizeNegativeExample()
    ensures ParseSize("-3") == Ok(-3)
  {
    assert Normalize("-3") == "-3";
    assert "-3"[1..] == "3";
    assert "3"[..0] == "";
    assert ParseNormal("-3") == Ok(-3);
  }

  /** Texts whose part before the unit is not an integer are rejected. */
  lemma ParseSizeRejects()
    ensures ParseSize("") == Err(ValueError)
    ensures ParseSize("G") == Err(ValueError)
    ensures ParseSize("5MB") == Err(ValueError)
    ensures ParseSize("1.5G") == Err(ValueError)
  {
    assert Normalize("") == "";
    assert Normalize("G") == "G";
    assert "G"[..0] == "";
    assert Normalize("5MB") == "5MB";
    assert Normalize("1.5G") == "1.5G";
    assert "1.5G"[..3] == "1.5";
    assert !IsDigit("1.5"[1]);
  }
}
