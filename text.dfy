/**
 * The text level of the persisted records: comma-joined fields, Java's
 * `String.split(",")`, and decimal integers as `String.valueOf` prints
 * them and `Integer.parseInt` reads them.
 */
module Text {
  import opened Common

  const MinInt: int := -0x8000_0000
  const MaxInt: int := 0x7fff_ffff

  /** The fields separated by commas, as the entities' toString methods build a record. */
  function Join(fields: seq<string>): string
  {
    if |fields| == 0 then ""
    else if |fields| == 1 then fields[0]
    else fields[0] + "," + Join(fields[1..])
  }

  /** The string cut at every comma; empty pieces are kept. */
  function Pieces(s: string): (r: seq<string>)
    ensures |r| >= 1
  {
    if s == [] then [""]
    else if s[0] == ',' then [""] + Pieces(s[1..])
    else
      var rest := Pieces(s[1..]);
      [[s[0]] + rest[0]] + rest[1..]
  }

  /** The fields with every trailing empty field removed. */
  function DropTrailingEmpty(fields: seq<string>): (r: seq<string>)
    ensures |r| <= |fields|
    ensures |r| > 0 ==> r[|r| - 1] != ""
  {
    if |fields| > 0 && fields[|fields| - 1] == "" then DropTrailingEmpty(fields[..|fields| - 1])
    else fields
  }

  /**
   * `String.split(",")`: a string without a comma is its own only field;
   * otherwise the pieces between commas, with trailing empty pieces dropped.
   */
  function Split(s: string): seq<string>
  {
    if ',' in s then DropTrailingEmpty(Pieces(s)) else [s]
  }

  predicate CommaFree(fields: seq<string>)
  {
    forall i :: 0 <= i < |fields| ==> ',' !in fields[i]
  }

  lemma {:induction false} PiecesOfCommaFree(f: string)
    requires ',' !in f
    ensures Pieces(f) == [f]
    decreases |f|
  {
    if f != [] {
      assert ',' !in f[1..];
      PiecesOfCommaFree(f[1..]);
      assert [f[0]] + f[1..] == f;
    }
  }

  lemma {:induction false} PiecesOfPrefixed(f: string, rest: string)
    requires ',' !in f
    ensures Pieces(f + "," + rest) == [f] + Pieces(rest)
    decreases |f|
  {
    var s := f + "," + rest;
    if f == [] {
      assert s == "," + rest;
      assert s[1..] == rest;
    } else {
      assert s[0] == f[0];
      assert s[1..] == f[1..] + "," + rest;
      assert ',' !in f[1..];
      PiecesOfPrefixed(f[1..], rest);
      assert [f[0]] + f[1..] == f;
    }
  }

  /** Cutting a join of comma-free fields at its commas gives the fields back. */
  lemma {:induction false} PiecesOfJoin(fields: seq<string>)
    requires |fields| >= 1 && CommaFree(fields)
    ensures Pieces(Join(fields)) == fields
    decreases |fields|
  {
    if |fields| == 1 {
      assert ',' !in fields[0];
      PiecesOfCommaFree(fields[0]);
    } else {
      assert ',' !in fields[0];
      PiecesOfPrefixed(fields[0], Join(fields[1..]));
      assert CommaFree(fields[1..]) by {
        forall i | 0 <= i < |fields[1..]| ensures ',' !in fields[1..][i] {
          assert fields[1..][i] == fields[i + 1];
        }
      }
      PiecesOfJoin(fields[1..]);
      assert [fields[0]] + fields[1..] == fields;
    }
  }

  /**
   * A record of at least two comma-free fields splits back into its fields,
   * less the trailing empty ones that `String.split` drops.
   */
  lemma SplitJoin(fields: seq<string>)
    requires |fields| >= 2 && CommaFree(fields)
    ensures Split(Join(fields)) == DropTrailingEmpty(fields)
  {
    var s := Join(fields);
    assert s == fields[0] + "," + Join(fields[1..]);
    assert s[|fields[0]|] == ',';
    PiecesOfJoin(fields);
  }

  /** Joining two non-empty runs of fields puts one comma between their joins. */
  lemma {:induction false} JoinAppend(a: seq<string>, b: seq<string>)
    requires |a| >= 1 && |b| >= 1
    ensures Join(a + b) == Join(a) + "," + Join(b)
    decreases |a|
  {
    assert (a + b)[0] == a[0];
    if |a| == 1 {
      assert (a + b)[1..] == b;
    } else {
      assert (a + b)[1..] == a[1..] + b;
      JoinAppend(a[1..], b);
    }
  }

  lemma DropTrailingEmptyOfNonEmptyLast(fields: seq<string>)
    requires |fields| > 0 && fields[|fields| - 1] != ""
    ensures DropTrailingEmpty(fields) == fields
  {
  }

  // ---- decimal integers ----

  predicate IsDigit(c: char)
  {
    '0' <= c <= '9'
  }

  predicate AllDigits(s: string)
  {
    forall i :: 0 <= i < |s| ==> IsDigit(s[i])
  }

  function DigitChar(d: int): (c: char)
    requires 0 <= d < 10
    ensures IsDigit(c) && (c as int) - ('0' as int) == d
  {
    (('0' as int) + d) as char
  }

  /** The decimal digits of `n`, most significant first, without leading zeros. */
  function NatToString(n: nat): (s: string)
    ensures |s| >= 1 && AllDigits(s)
    decreases n
  {
    if n < 10 then [DigitChar(n)] else NatToString(n / 10) + [DigitChar(n % 10)]
  }

  /** `String.valueOf(int)`: a minus sign for negatives, then the digits. */
  function IntToString(n: int): (s: string)
    ensures |s| >= 1 && ',' !in s
  {
    if n < 0 then "-" + NatToString(-n) else NatToString(n)
  }

  /** The value of a non-empty string of decimal digits; None for any other string. */
  function DigitsValue(s: string): Option<nat>
    decreases |s|
  {
    if |s| == 0 || !IsDigit(s[|s| - 1]) then None
    else
      var last := (s[|s| - 1] as int) - ('0' as int);
      if |s| == 1 then Some(last)
      else
        match DigitsValue(s[..|s| - 1])
        case None => None
        case Some(v) => Some(v * 10 + last)
  }

  /**
   * `Integer.parseInt`: an optional sign, at least one decimal digit, and a
   * value in the 32-bit range; anything else throws in Java and is None here.
   */
  function ParseInt(s: string): (r: Option<int>)
    ensures r.Some? ==> MinInt <= r.value <= MaxInt
  {
    var signed := |s| > 0 && (s[0] == '-' || s[0] == '+');
    match DigitsValue(if signed then s[1..] else s)
    case None => None
    case Some(d) =>
      var v: int := if |s| > 0 && s[0] == '-' then -(d as int) else d;
      if MinInt <= v <= MaxInt then Some(v) else None
  }

  /** Java `int` addition of two `int` values: the sum wrapped into the 32-bit range. */
  function Add32(a: int, b: int): (r: int)
    requires MinInt <= a <= MaxInt && MinInt <= b <= MaxInt
    ensures MinInt <= r <= MaxInt
    ensures r == a + b || r == a + b - 0x1_0000_0000 || r == a + b + 0x1_0000_0000
    ensures MinInt <= a + b <= MaxInt ==> r == a + b
  {
    if a + b > MaxInt then a + b - 0x1_0000_0000
    else if a + b < MinInt then a + b + 0x1_0000_0000
    else a + b
  }

  lemma {:induction false} DigitsOfNat(n: nat)
    ensures DigitsValue(NatToString(n)) == Some(n)
    decreases n
  {
    if n >= 10 {
      var s := NatToString(n);
      assert s[..|s| - 1] == NatToString(n / 10);
      DigitsOfNat(n / 10);
    }
  }

  /** Every Java int printed in decimal is read back as itself. */
  lemma ParseIntToString(n: int)
    requires MinInt <= n <= MaxInt
    ensures ParseInt(IntToString(n)) == Some(n)
  {
    var s := IntToString(n);
    if n < 0 {
      assert s[1..] == NatToString(-n);
      DigitsOfNat(-n);
    } else {
      assert IsDigit(s[0]);
      DigitsOfNat(n);
    }
  }
}
