/**
 * The JSON values the dump is made of, and the parts of the JSON library the
 * backup and restore code rely on: `put` on an object (a null value removes
 * the key), and the typed getters, which throw a JSON exception when a key is
 * missing or the value cannot be read as the requested type. Parsing and
 * pretty-printing are not modelled here: they are parameters of the backup and restore modules.
 */
module Json {
  import opened Wrappers

  datatype Json =
    | JNull
    | JBool(b: bool)
    | JInt(i: int)
    | JStr(s: string)
    | JArr(items: seq<Json>)
    | JObj(fields: Fields)

  type Fields = map<string, Json>

  /** The JSON exception, by cause. */
  datatype JsonError =
    | Syntax(message: string)
    | NotFound(key: string)
    | WrongType(key: string)
    | IndexOutOfRange(index: int)

  /** The effect of `put(key, value)` on an object's fields; `None` stands for Java's null. */
  function Updated(fields: Fields, key: string, value: Option<Json>): (r: Fields)
    ensures value.Some? ==> key in r && r[key] == value.value
    ensures value.None? ==> key !in r
    ensures forall k :: k != key ==> (k in r <==> k in fields)
    ensures forall k :: k != key && k in r ==> r[k] == fields[k]
  {
    match value
    case Some(v) => fields[key := v]
    case None => fields - {key}
  }

  /** A nullable Java string as a value to put. */
  function Str(s: Option<string>): (r: Option<Json>)
    ensures r.Some? <==> s.Some?
    ensures s.Some? ==> r.value == JStr(s.value)
  {
    match s
    case Some(t) => Some(JStr(t))
    case None => None
  }

  /** A mutable JSON object, as the backup code builds it with `put`. */
  class JsonObject {
    var fields: Fields

    constructor ()
      ensures fields == map[]
    {
      fields := map[];
    }

    method Put(key: string, value: Option<Json>)
      modifies this
      ensures fields == Updated(old(fields), key, value)
    {
      fields := Updated(fields, key, value);
    }
  }

  // ---------------------------------------------------------------------
  // Java integers, and decimal text as the getters convert between the two.

  /** The values of a Java `int`. */
  type Int32Value = x: int | -0x8000_0000 <= x < 0x8000_0000

  /** Java's `(int)` of a `long`: the value wrapped into 32 bits, two's complement. */
  function Int32(x: int): (r: Int32Value)
    ensures (r - x) % 0x1_0000_0000 == 0
    ensures -0x8000_0000 <= x < 0x8000_0000 ==> r == x
  {
    (x + 0x8000_0000) % 0x1_0000_0000 - 0x8000_0000
  }

  /** Java's `(int)` of a `double` holding a whole number: out-of-range values saturate. */
  function Saturate(x: int): (r: Int32Value)
    ensures -0x8000_0000 <= x < 0x8000_0000 ==> r == x
    ensures x < -0x8000_0000 ==> r == -0x8000_0000
    ensures x >= 0x8000_0000 ==> r == 0x7FFF_FFFF
  {
    if x < -0x8000_0000 then -0x8000_0000 else if x >= 0x8000_0000 then 0x7FFF_FFFF else x
  }

  function DigitChar(d: nat): (c: char)
    requires d < 10
    ensures '0' <= c <= '9' && c as int - '0' as int == d
  {
    (d + '0' as int) as char
  }

  predicate IsDigit(c: char)
  {
    '0' <= c <= '9'
  }

  function NatToString(n: nat): (s: string)
    ensures |s| > 0 && forall i :: 0 <= i < |s| ==> IsDigit(s[i])
    decreases n
  {
    if n < 10 then [DigitChar(n)] else NatToString(n / 10) + [DigitChar(n % 10)]
  }

  function IntToString(i: int): (s: string)
    ensures |s| > 0
  {
    if i < 0 then "-" + NatToString(-i) else NatToString(i)
  }

  predicate AllDigits(s: string)
  {
    |s| > 0 && forall i :: 0 <= i < |s| ==> IsDigit(s[i])
  }

  /** The value of a digit; other characters count as 0 (they are never read as digits). */
  function DigitValue(c: char): nat
  {
    if IsDigit(c) then c as int - '0' as int else 0
  }

  /** The value of a string of decimal digits, 0 for the empty string. */
  function DigitsValue(s: string): nat
    decreases |s|
  {
    if |s| == 0 then 0 else DigitsValue(s[..|s| - 1]) * 10 + DigitValue(s[|s| - 1])
  }

  /** What `String.trim` removes: every character up to the space. */
  predicate Blank(c: char)
  {
    c <= ' '
  }

  function TrimStart(s: string): string
    decreases |s|
  {
    if |s| > 0 && Blank(s[0]) then TrimStart(s[1..]) else s
  }

  function TrimEnd(s: string): string
    decreases |s|
  {
    if |s| > 0 && Blank(s[|s| - 1]) then TrimEnd(s[..|s| - 1]) else s
  }

  /** The length of the run of digits that starts the text. */
  function DigitRun(s: string): (n: nat)
    ensures n <= |s|
    decreases |s|
  {
    if |s| > 0 && IsDigit(s[0]) then 1 + DigitRun(s[1..]) else 0
  }

  /**
   * The whole part of a plain unsigned decimal: digits, optionally followed
   * by a point and more digits, with at least one digit in all.
   */
  function WholePart(s: string): Option<nat>
  {
    var n := DigitRun(s);
    var whole := DigitsValue(s[..n]);
    if n == |s| then (if n > 0 then Some(whole) else None)
    else if s[n] == '.' && DigitRun(s[n + 1..]) == |s| - n - 1 && (n > 0 || n + 1 < |s|) then Some(whole)
    else None
  }

  /**
   * The int `getInt` reads from text: the text is trimmed and parsed as a
   * Java double, then cast to int, which truncates toward zero and
   * saturates. Only plain decimals with an optional sign are accepted here.
   */
  function ParseInt(s: string): Option<Int32Value>
  {
    var t := TrimEnd(TrimStart(s));
    var signed := |t| > 0 && (t[0] == '-' || t[0] == '+');
    match WholePart(if signed then t[1..] else t)
    case None => None
    case Some(m) => Some(Saturate(if signed && t[0] == '-' then 0 - m else m))
  }

  lemma {:induction false} DigitsOfNat(n: nat)
    ensures DigitsValue(NatToString(n)) == n
    decreases n
  {
    var s := NatToString(n);
    if n < 10 {
      assert s[..|s| - 1] == [];
    } else {
      assert s[..|s| - 1] == NatToString(n / 10);
      DigitsOfNat(n / 10);
    }
  }

  /** A run of digits ends at the first character that is not one. */
  lemma {:induction false} DigitRunStops(d: string, rest: string)
    requires AllDigits(d) && (rest == [] || !IsDigit(rest[0]))
    ensures DigitRun(d + rest) == |d|
    decreases |d|
  {
    if |d| > 1 {
      assert (d + rest)[1..] == d[1..] + rest;
      DigitRunStops(d[1..], rest);
    } else {
      assert (d + rest)[1..] == rest;
    }
  }

  /** The decimal text of a natural number is read whole, as its value. */
  lemma NatTextWhole(n: nat)
    ensures WholePart(NatToString(n)) == Some(n)
  {
    var s := NatToString(n);
    assert s + [] == s;
    DigitRunStops(s, []);
    assert s[..|s|] == s;
    DigitsOfNat(n);
  }

  /** Reading back the decimal text of an integer gives the integer, saturated to the int range. */
  lemma ParseIntToString(i: int)
    ensures ParseInt(IntToString(i)) == Some(Saturate(i))
  {
    var d := NatToString(if i < 0 then -i else i);
    NatTextWhole(if i < 0 then -i else i);
    UnsignedText(d, if i < 0 then -i else i);
  }

  /** An unsigned decimal without surrounding blanks, alone and after a minus sign. */
  lemma UnsignedText(t: string, m: nat)
    requires |t| > 0 && IsDigit(t[0]) && !Blank(t[|t| - 1]) && WholePart(t) == Some(m)
    ensures ParseInt(t) == Some(Saturate(m))
    ensures ParseInt("-" + t) == Some(Saturate(0 - m))
  {
    assert TrimEnd(TrimStart(t)) == t;
    var u := "-" + t;
    assert TrimEnd(TrimStart(u)) == u by {
      assert u[|u| - 1] == t[|t| - 1];
    }
    assert u[1..] == t;
  }

  /** A fraction is cut off: the cast truncates toward zero, for either sign. */
  lemma ParseIntTruncates(n: nat, fraction: string)
    requires fraction == [] || AllDigits(fraction)
    ensures var s := NatToString(n) + "." + fraction;
      ParseInt(s) == Some(Saturate(n)) && ParseInt("-" + s) == Some(Saturate(0 - n))
  {
    var d := NatToString(n);
    var s := d + "." + fraction;
    FractionWhole(n, fraction);
    assert s[0] == d[0];
    UnsignedText(s, n);
  }

  lemma FractionWhole(n: nat, fraction: string)
    requires fraction == [] || AllDigits(fraction)
    ensures var s := NatToString(n) + "." + fraction;
      WholePart(s) == Some(n) && !Blank(s[|s| - 1])
  {
    var d := NatToString(n);
    var s := d + "." + fraction;
    assert DigitsValue(s[..|d|]) == n by {
      assert s[..|d|] == d;
      DigitsOfNat(n);
    }
    assert DigitRun(s) == |d| by {
      assert s == d + ("." + fraction);
      DigitRunStops(d, "." + fraction);
    }
    assert DigitRun(s[|d| + 1..]) == |fraction| by {
      assert s[|d| + 1..] == fraction;
      if fraction != [] {
        assert fraction + [] == fraction;
        DigitRunStops(fraction, []);
      }
    }
    assert s[|s| - 1] == (if fraction == [] then '.' else fraction[|fraction| - 1]);
  }

  /** A leading plus sign and surrounding blanks are accepted. */
  lemma ParseIntPaddedPlus(n: nat)
    ensures ParseInt(" +" + NatToString(n) + " ") == Some(Saturate(n))
  {
    var d := NatToString(n);
    var p := " +" + d + " ";
    var q := "+" + d + " ";
    assert p[1..] == q;
    assert TrimStart(q) == q;
    assert q[..|q| - 1] == "+" + d;
    assert ("+" + d)[|d|] == d[|d| - 1];
    assert TrimEnd("+" + d) == "+" + d;
    assert ("+" + d)[1..] == d;
    NatTextWhole(n);
  }

  // ---------------------------------------------------------------------
  // The getters, with the library's coercions between scalars: a number
  // read as a string gives its decimal text, a number read as an int is
  // cast, a string read as an int is trimmed, parsed and cast, and "true"
  // and "false" are read as booleans whatever their case. Arrays and
  // objects are not rendered as text, and only plain decimals are parsed.

  /** How `getString` renders a value; arrays and objects are refused (their JSON text is not modelled). */
  function AsString(v: Json, key: string): (r: Result<string, JsonError>)
    ensures v.JStr? ==> r == Ok(v.s)
    ensures v.JInt? ==> r == Ok(IntToString(v.i))
    ensures v.JBool? ==> r == Ok(if v.b then "true" else "false")
    ensures v.JNull? ==> r == Ok("null")
    ensures r.Err? <==> v.JArr? || v.JObj?
  {
    match v
    case JStr(s) => Ok(s)
    case JInt(i) => Ok(IntToString(i))
    case JBool(b) => Ok(if b then "true" else "false")
    case JNull => Ok("null")
    case _ => Err(WrongType(key))
  }

  function Get(fields: Fields, key: string): (r: Result<Json, JsonError>)
    ensures r.Ok? <==> key in fields
    ensures r.Ok? ==> r.value == fields[key]
    ensures r.Err? ==> r.error == NotFound(key)
  {
    if key in fields then Ok(fields[key]) else Err(NotFound(key))
  }

  function GetString(fields: Fields, key: string): (r: Result<string, JsonError>)
    ensures key !in fields ==> r == Err(NotFound(key))
    ensures key in fields && fields[key].JStr? ==> r == Ok(fields[key].s)
    ensures key in fields ==> r == AsString(fields[key], key)
  {
    match Get(fields, key)
    case Err(e) => Err(e)
    case Ok(v) => AsString(v, key)
  }

  /** `getInt`: a number is cast to int, text is parsed and cast; anything else is a type error. */
  function GetInt(fields: Fields, key: string): (r: Result<int, JsonError>)
    ensures key !in fields ==> r == Err(NotFound(key))
    ensures key in fields && fields[key].JInt? ==> r == Ok(Int32(fields[key].i))
    ensures key in fields && fields[key].JStr? ==> (r.Ok? <==> ParseInt(fields[key].s).Some?)
    ensures key in fields && fields[key].JStr? && ParseInt(fields[key].s).Some? ==> r == Ok(ParseInt(fields[key].s).value)
    ensures key in fields && !fields[key].JInt? && !fields[key].JStr? ==> r == Err(WrongType(key))
    ensures r.Ok? ==> -0x8000_0000 <= r.value < 0x8000_0000
  {
    match Get(fields, key)
    case Err(e) => Err(e)
    case Ok(JInt(i)) => Ok(Int32(i))
    case Ok(JStr(s)) =>
      (match ParseInt(s)
       case Some(i) => Ok(i)
       case None => Err(WrongType(key)))
    case Ok(_) => Err(WrongType(key))
  }

  /** `s.equalsIgnoreCase("true")`: each letter in either case. */
  predicate TrueText(s: string)
  {
    |s| == 4 && (s[0] == 't' || s[0] == 'T') && (s[1] == 'r' || s[1] == 'R')
      && (s[2] == 'u' || s[2] == 'U') && (s[3] == 'e' || s[3] == 'E')
  }

  /**
   * `s.equalsIgnoreCase("false")`: each letter in either case; the long s
   * (U+017F) upper-cases to S, so it matches s too.
   */
  predicate FalseText(s: string)
  {
    |s| == 5 && (s[0] == 'f' || s[0] == 'F') && (s[1] == 'a' || s[1] == 'A') && (s[2] == 'l' || s[2] == 'L')
      && (s[3] == 's' || s[3] == 'S' || s[3] == '\U{017F}') && (s[4] == 'e' || s[4] == 'E')
  }

  function GetBoolean(fields: Fields, key: string): (r: Result<bool, JsonError>)
    ensures key !in fields ==> r == Err(NotFound(key))
    ensures key in fields && fields[key].JBool? ==> r == Ok(fields[key].b)
    ensures key in fields && fields[key].JStr? && TrueText(fields[key].s) ==> r == Ok(true)
    ensures key in fields && fields[key].JStr? && FalseText(fields[key].s) ==> r == Ok(false)
    ensures key in fields && fields[key].JStr? && !TrueText(fields[key].s) && !FalseText(fields[key].s) ==> r == Err(WrongType(key))
    ensures r.Ok? ==> key in fields && (fields[key].JBool? || fields[key].JStr?)
  {
    match Get(fields, key)
    case Err(e) => Err(e)
    case Ok(JBool(b)) => Ok(b)
    case Ok(JStr(s)) =>
      if TrueText(s) then Ok(true)
      else if FalseText(s) then Ok(false)
      else Err(WrongType(key))
    case Ok(_) => Err(WrongType(key))
  }

  function GetArray(fields: Fields, key: string): (r: Result<seq<Json>, JsonError>)
    ensures r.Ok? <==> key in fields && fields[key].JArr?
    ensures r.Ok? ==> r.value == fields[key].items
  {
    match Get(fields, key)
    case Err(e) => Err(e)
    case Ok(JArr(items)) => Ok(items)
    case Ok(_) => Err(WrongType(key))
  }

  /** `getJSONObject(i)` on an array: never null, throws for anything but an object. */
  function ObjectAt(items: seq<Json>, i: int): (r: Result<Fields, JsonError>)
    ensures r.Ok? <==> 0 <= i < |items| && items[i].JObj?
    ensures r.Ok? ==> r.value == items[i].fields
  {
    if !(0 <= i < |items|) then Err(IndexOutOfRange(i))
    else match items[i]
      case JObj(f) => Ok(f)
      case _ => Err(WrongType(IntToString(i)))
  }

  /** `getString(i)` on an array. */
  function StringAt(items: seq<Json>, i: int): (r: Result<string, JsonError>)
    ensures 0 <= i < |items| && items[i].JStr? ==> r == Ok(items[i].s)
    ensures !(0 <= i < |items|) ==> r.Err?
  {
    if !(0 <= i < |items|) then Err(IndexOutOfRange(i)) else AsString(items[i], IntToString(i))
  }

  /** An integer the backup stores as JSON number is read back as a string by its decimal text, and back again. */
  lemma NumberReadAsStringAndInt(fields: Fields, key: string, i: int)
    requires key in fields && fields[key] == JInt(i)
    ensures GetString(fields, key) == Ok(IntToString(i))
    ensures GetInt(fields, key) == Ok(Int32(i))
  {
  }

  /** A decimal string the backup stores is read back as an integer by `getInt`. */
  lemma DecimalStringReadAsInt(fields: Fields, key: string, i: int)
    requires key in fields && fields[key] == JStr(IntToString(i))
    ensures GetInt(fields, key) == Ok(Saturate(i))
  {
    ParseIntToString(i);
  }
}
