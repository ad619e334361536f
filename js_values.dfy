/** The JavaScript values the dashboard reads from a parsed CSV row, and the few
    JavaScript operations it applies to them (truthiness, `||`, `+`,
    `parseFloat`, `parseInt`, `Math.round`, `toUpperCase`). */
module JsValues {

  datatype Option<T> = None | Some(value: T)

  /** A JavaScript number. Infinities are not represented; NaN is what
      `parseFloat` and `parseInt` give for text without a leading number. */
  datatype JsNumber = Finite(value: real) | NaN

  /** One cell of a row as the CSV parser hands it over with dynamic typing:
      a missing or null cell, a text, a number, or a boolean (the parser turns
      the texts true, TRUE, false and FALSE into booleans). */
  datatype Cell = Empty | Text(s: string) | Number(n: JsNumber) | Bool(b: bool)

  /** Truthiness of a number: 0 and NaN are falsy. */
  predicate NumberTruthy(n: JsNumber) {
    n.Finite? && n.value != 0.0
  }

  /** Truthiness of a cell: null/undefined, "", falsy numbers and false are falsy. */
  predicate Truthy(c: Cell) {
    match c
    case Empty => false
    case Text(s) => s != ""
    case Number(n) => NumberTruthy(n)
    case Bool(b) => b
  }

  /** `a || fallback` */
  function Or(a: Cell, fallback: Cell): (r: Cell)
    ensures Truthy(a) ==> r == a
    ensures !Truthy(a) ==> r == fallback
  {
    if Truthy(a) then a else fallback
  }

  /** `a || b || fallback`: the first truthy operand, else the fallback. */
  function Or3(a: Cell, b: Cell, fallback: Cell): (r: Cell)
    ensures Truthy(a) ==> r == a
    ensures !Truthy(a) && Truthy(b) ==> r == b
    ensures !Truthy(a) && !Truthy(b) ==> r == fallback
  {
    Or(a, Or(b, fallback))
  }

  /** Number addition: NaN absorbs. */
  function Add(a: JsNumber, b: JsNumber): (r: JsNumber)
    ensures r.Finite? <==> a.Finite? && b.Finite?
    ensures r.Finite? ==> r.value - a.value == b.value
  {
    if a.Finite? && b.Finite? then Finite(a.value + b.value) else NaN
  }

  /** `Math.round`: the nearest integer, halves rounded up. */
  function Round(x: real): (r: int)
    ensures r as real - 0.5 <= x < r as real + 0.5
  {
    (x + 0.5).Floor
  }

  /** Truncation toward zero, which is what `parseInt` does to a number it
      reads back from its decimal text. */
  function Trunc(x: real): (r: int)
    ensures 0.0 <= x ==> 0 <= r && r as real <= x < r as real + 1.0
    ensures x < 0.0 ==> r <= 0 && r as real - 1.0 < x <= r as real
  {
    if 0.0 <= x then x.Floor else -((-x).Floor)
  }

  predicate IsDigit(ch: char) {
    '0' <= ch <= '9'
  }

  /** The white space and line terminators `parseFloat` and `parseInt` skip:
      tab, line feed, vertical tab, form feed, carriage return, the space
      separators of Unicode category Zs, the byte order mark and the line and
      paragraph separators. */
  predicate IsSpace(ch: char) {
    ch == '\t' || ch == '\n' || ch == '\U{000B}' || ch == '\U{000C}' || ch == '\r'
    || ch == ' ' || ch == '\U{00A0}' || ch == '\U{1680}' || '\U{2000}' <= ch <= '\U{200A}'
    || ch == '\U{2028}' || ch == '\U{2029}' || ch == '\U{202F}' || ch == '\U{205F}'
    || ch == '\U{3000}' || ch == '\U{FEFF}'
  }

  /** Leading white space removed: what goes is all white space, and what
      stays is a suffix that does not start with it. */
  function TrimStart(s: string): (t: string)
    ensures |t| <= |s| && t == s[|s| - |t|..]
    ensures forall i :: 0 <= i < |s| - |t| ==> IsSpace(s[i])
    ensures |t| > 0 ==> !IsSpace(t[0])
  {
    if |s| > 0 && IsSpace(s[0]) then TrimStart(s[1..]) else s
  }

  /** Length of the run of decimal digits that starts s. */
  function DigitRun(s: string): (n: nat)
    ensures n <= |s|
    ensures forall i :: 0 <= i < n ==> IsDigit(s[i])
    ensures n < |s| ==> !IsDigit(s[n])
  {
    if |s| > 0 && IsDigit(s[0]) then 1 + DigitRun(s[1..]) else 0
  }

  /** The value of a string of decimal digits, most significant first. */
  function DigitsValue(ds: string): nat
    requires forall i :: 0 <= i < |ds| ==> IsDigit(ds[i])
  {
    if ds == [] then 0
    else
      var last := ds[|ds| - 1];
      assert IsDigit(last);
      DigitsValue(ds[..|ds| - 1]) * 10 + (last as int - '0' as int)
  }

  function Pow10(k: nat): (p: nat)
    ensures p >= 1
  {
    if k == 0 then 1 else 10 * Pow10(k - 1)
  }

  /** A leading sign, if any: whether it was '-', and the text after it. */
  function Unsign(t: string): (string, bool) {
    if |t| > 0 && (t[0] == '-' || t[0] == '+') then (t[1..], t[0] == '-') else (t, false)
  }

  /** `parseFloat` on a text: an optional sign, digits, an optional '.' and
      more digits, at least one digit in all; anything after that is ignored. */
  function ParseFloatText(s: string): JsNumber {
    var (u, negative) := Unsign(TrimStart(s));
    var n := DigitRun(u);
    var rest := u[n..];
    var fraction := if |rest| > 0 && rest[0] == '.' then rest[1..][..DigitRun(rest[1..])] else "";
    if n == 0 && |fraction| == 0 then NaN
    else
      var magnitude := DigitsValue(u[..n]) as real + DigitsValue(fraction) as real / Pow10(|fraction|) as real;
      Finite(if negative then -magnitude else magnitude)
  }

  /** `parseInt` on a text: an optional sign and at least one digit. */
  function ParseIntText(s: string): JsNumber {
    var (u, negative) := Unsign(TrimStart(s));
    var n := DigitRun(u);
    if n == 0 then NaN
    else
      var magnitude: int := DigitsValue(u[..n]);
      Finite((if negative then -magnitude else magnitude) as real)
  }

  /** `parseFloat(c)`: a number is read back as itself; null, undefined and
      the booleans (read as the texts "null", "undefined", "true" and "false")
      give NaN. */
  function ParseFloat(c: Cell): JsNumber {
    match c
    case Empty => NaN
    case Number(n) => n
    case Text(s) => ParseFloatText(s)
    case Bool(_) => NaN
  }

  /** `parseInt(c)`: a number is truncated toward zero. */
  function ParseInt(c: Cell): (r: JsNumber)
    ensures r.Finite? ==> r.value == r.value.Floor as real
  {
    match c
    case Empty => NaN
    case Number(n) => if n.Finite? then Finite(Trunc(n.value) as real) else NaN
    case Text(s) => ParseIntText(s)
    case Bool(_) => NaN
  }

  /** A text in which no character is a digit has no leading number, so
      `parseFloat` gives NaN: the `#N/A` sentinel is one. */
  lemma {:induction false} NoDigitNoNumber(s: string)
    requires forall i :: 0 <= i < |s| ==> !IsDigit(s[i])
    ensures ParseFloatText(s) == NaN
    ensures ParseIntText(s) == NaN
  {
    var t := TrimStart(s);
    var (u, negative) := Unsign(t);
    assert u == t || u == t[1..];
    assert forall i :: 0 <= i < |u| ==> !IsDigit(u[i]) by {
      forall i | 0 <= i < |u| ensures !IsDigit(u[i]) {
        if u == t {
          assert u[i] == s[|s| - |t| + i];
        } else {
          assert u[i] == s[|s| - |t| + 1 + i];
        }
      }
    }
    assert DigitRun(u) == 0;
    var rest := u[0..];
    if |rest| > 0 && rest[0] == '.' {
      var after := rest[1..];
      assert forall i :: 0 <= i < |after| ==> !IsDigit(after[i]) by {
        forall i | 0 <= i < |after| ensures !IsDigit(after[i]) {
          assert after[i] == u[i + 1];
        }
      }
      assert DigitRun(after) == 0;
    }
  }

  /** The sentinel the dashboard's input uses for a missing coordinate
      parses to NaN, which is falsy. */
  lemma NotAvailableIsNaN()
    ensures ParseFloat(Text("#N/A")) == NaN
    ensures !NumberTruthy(ParseFloat(Text("#N/A")))
  {
    NoDigitNoNumber("#N/A");
  }

  function UpperChar(ch: char): char {
    if 'a' <= ch <= 'z' then (ch as int - 'a' as int + 'A' as int) as char else ch
  }

  /** `toUpperCase` on the ASCII letters. */
  function ToUpper(s: string): (r: string)
    ensures |r| == |s|
    ensures forall i :: 0 <= i < |s| ==> r[i] == UpperChar(s[i])
  {
    if s == [] then [] else [UpperChar(s[0])] + ToUpper(s[1..])
  }
}
