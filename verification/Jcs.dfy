/** The JSON canonicalizer of sdk/typescript/src/jcs.ts (RFC 8785): a
    recursive-descent parser with a cursor, and a serializer. Strings are
    sequences of UTF-16 code units. */
module Jcs {
  import opened Wrappers

  type Unit = x: nat | x < 0x10000

  type Str = seq<Unit>

  const TAB: Unit := 0x09
  const LF: Unit := 0x0A
  const CR: Unit := 0x0D
  const SPACE: Unit := 0x20
  const QUOTE: Unit := 0x22
  const PLUS: Unit := 0x2B
  const COMMA: Unit := 0x2C
  const MINUS: Unit := 0x2D
  const DOT: Unit := 0x2E
  const SLASH: Unit := 0x2F
  const ZERO: Unit := 0x30
  const NINE: Unit := 0x39
  const COLON: Unit := 0x3A
  const OPEN_BRACKET: Unit := 0x5B
  const BACKSLASH: Unit := 0x5C
  const CLOSE_BRACKET: Unit := 0x5D
  const OPEN_BRACE: Unit := 0x7B
  const CLOSE_BRACE: Unit := 0x7D
  const LETTER_T: Unit := 0x74
  const LETTER_F: Unit := 0x66
  const LETTER_N: Unit := 0x6E
  const LETTER_U: Unit := 0x75

  const TRUE: Str := [0x74, 0x72, 0x75, 0x65]
  const FALSE: Str := [0x66, 0x61, 0x6C, 0x73, 0x65]
  const NULL: Str := [0x6E, 0x75, 0x6C, 0x6C]

  /** "__num", the field that marks a parsed number. */
  const NUM: Str := [0x5F, 0x5F, 0x6E, 0x75, 0x6D]

  /** "__proto__", the key whose assignment does not make a member. */
  const PROTO: Str := [0x5F, 0x5F, 0x70, 0x72, 0x6F, 0x74, 0x6F, 0x5F, 0x5F]

  datatype JVal =
    | JNull
    | JBool(b: bool)
    | JStr(text: Str)
    | JNum(raw: Str)
    | JArr(items: seq<JVal>)
    | JObj(members: map<Str, JVal>)

  datatype Error =
    | TrailingData
    | UnexpectedEnd
    | UnexpectedCharacter(c: Unit)
    | Expected(ch: Unit)
    | ExpectedCommaOr(ch: Unit)
    | UnterminatedString
    | BadEscape(e: Option<Unit>)
    | InvalidLiteral

  // --- Parsing, on what is left of the text ---------------------------------------------

  predicate IsWs(c: Unit) {
    c == SPACE || c == TAB || c == LF || c == CR
  }

  function Ws(t: Str): (r: Str)
    ensures |r| <= |t| && (r != [] ==> !IsWs(r[0]))
  {
    if t != [] && IsWs(t[0]) then Ws(t[1..]) else t
  }

  predicate IsDigitUnit(c: Unit) {
    ZERO <= c <= NINE
  }

  predicate IsNumberUnit(c: Unit) {
    IsDigitUnit(c) || c == DOT || c == 0x65 || c == 0x45 || c == PLUS || c == MINUS
  }

  /** How many leading units can belong to a number. */
  function NumberRun(t: Str): (n: nat)
    ensures n <= |t|
    ensures forall i :: 0 <= i < n ==> IsNumberUnit(t[i])
    ensures n < |t| ==> !IsNumberUnit(t[n])
  {
    if t != [] && IsNumberUnit(t[0]) then 1 + NumberRun(t[1..]) else 0
  }

  lemma RunIs(t: Str, n: nat)
    requires n <= |t| && (forall i :: 0 <= i < n ==> IsNumberUnit(t[i])) && (n < |t| ==> !IsNumberUnit(t[n]))
    ensures NumberRun(t) == n
  {}

  /** The digit a hex character stands for. */
  function HexDigit(c: Unit): Option<nat> {
    if 0x30 <= c <= 0x39 then Some(c - 0x30)
    else if 0x61 <= c <= 0x66 then Some(c - 0x61 + 10)
    else if 0x41 <= c <= 0x46 then Some(c - 0x41 + 10)
    else None
  }

  /** The characters parseInt skips. */
  predicate IsJsSpace(c: Unit) {
    || 0x09 <= c <= 0x0D || c == 0x20 || c == 0xA0 || c == 0x1680 || 0x2000 <= c <= 0x200A
    || c == 0x2028 || c == 0x2029 || c == 0x202F || c == 0x205F || c == 0x3000 || c == 0xFEFF
  }

  function TrimJs(h: Str): Str {
    if h != [] && IsJsSpace(h[0]) then TrimJs(h[1..]) else h
  }

  /** The number the leading hex digits of h denote, after those read so far. */
  function HexPrefix(h: Str, read: nat): nat {
    if h != [] && HexDigit(h[0]).Some? then HexPrefix(h[1..], 16 * read + HexDigit(h[0]).value) else read
  }

  /** String.fromCharCode(parseInt(hex, 16)): spaces, a sign and a 0x prefix are
      accepted, trailing junk is ignored, and no digits at all give U+0000. */
  function CodeUnit(hex: Str): Unit {
    var t := TrimJs(hex);
    var negative := t != [] && t[0] == MINUS;
    var u := if t != [] && (t[0] == MINUS || t[0] == PLUS) then t[1..] else t;
    var d := if |u| >= 2 && u[0] == ZERO && (u[1] == 0x78 || u[1] == 0x58) then u[2..] else u;
    var n: int := HexPrefix(d, 0);
    (if negative then -n else n) % 0x10000
  }

  /** What a one-letter escape stands for. */
  function ShortEscape(e: Unit): Option<Unit> {
    if e == QUOTE || e == BACKSLASH || e == SLASH then Some(e)
    else if e == 0x62 then Some(0x08)
    else if e == 0x66 then Some(0x0C)
    else if e == 0x6E then Some(LF)
    else if e == 0x72 then Some(CR)
    else if e == 0x74 then Some(TAB)
    else None
  }

  /** An escape, after its backslash. */
  function Escape(t: Str): (r: Result<(Unit, Str), Error>)
    ensures r.Success? ==> |r.value.1| < |t|
  {
    if t == [] then Failure(BadEscape(None))
    else if ShortEscape(t[0]).Some? then Success((ShortEscape(t[0]).value, t[1..]))
    else if t[0] != LETTER_U then Failure(BadEscape(Some(t[0])))
    else if |t| < 5 then Success((CodeUnit(t[1..]), []))
    else Success((CodeUnit(t[1..5]), t[5..]))
  }

  /** The rest of a string literal, after the units in out. */
  function Chars(t: Str, out: Str): (r: Result<(Str, Str), Error>)
    ensures r.Success? ==> |r.value.1| < |t|
    decreases |t|
  {
    if t == [] then Failure(UnterminatedString)
    else if t[0] == QUOTE then Success((out, t[1..]))
    else if t[0] != BACKSLASH then Chars(t[1..], out + [t[0]])
    else
      match Escape(t[1..])
      case Success(r) => Chars(r.1, out + [r.0])
      case Failure(e) => Failure(e)
  }

  function String(t: Str): (r: Result<(Str, Str), Error>)
    ensures r.Success? ==> |r.value.1| < |t|
  {
    if t == [] || t[0] != QUOTE then Failure(Expected(QUOTE)) else Chars(t[1..], [])
  }

  /** A literal word, if the text goes on with it. */
  function Word(t: Str, word: Str, v: JVal): (r: Result<(JVal, Str), Error>)
    requires word != []
    ensures r.Success? ==> |r.value.1| < |t|
  {
    if word <= t then Success((v, t[|word|..])) else Failure(InvalidLiteral)
  }

  function Value(t: Str): (r: Result<(JVal, Str), Error>)
    ensures r.Success? ==> |r.value.1| < |t|
    decreases |t|, 0
  {
    if t == [] then Failure(UnexpectedEnd)
    else
      var c := t[0];
      if c == OPEN_BRACE then Object(t[1..])
      else if c == OPEN_BRACKET then Array(t[1..])
      else if c == QUOTE then
        (match String(t) case Success(r) => Success((JStr(r.0), r.1)) case Failure(e) => Failure(e))
      else if c == LETTER_T then Word(t, TRUE, JBool(true))
      else if c == LETTER_F then Word(t, FALSE, JBool(false))
      else if c == LETTER_N then Word(t, NULL, JNull)
      else if c == MINUS || IsDigitUnit(c) then Success((JNum(t[..NumberRun(t)]), t[NumberRun(t)..]))
      else Failure(UnexpectedCharacter(c))
  }

  /** An array, after its bracket. */
  function Array(t: Str): (r: Result<(JVal, Str), Error>)
    ensures r.Success? ==> |r.value.1| < |t|
    decreases |t|, 2
  {
    var rest := Ws(t);
    if rest != [] && rest[0] == CLOSE_BRACKET then Success((JArr([]), rest[1..])) else Items(rest, [])
  }

  /** The rest of an array, after the items in out. */
  function Items(t: Str, out: seq<JVal>): (r: Result<(JVal, Str), Error>)
    ensures r.Success? ==> |r.value.1| < |t|
    decreases |t|, 1
  {
    match Value(Ws(t))
    case Failure(e) => Failure(e)
    case Success(r) =>
      var t1 := Ws(r.1);
      if t1 != [] && t1[0] == CLOSE_BRACKET then Success((JArr(out + [r.0]), t1[1..]))
      else if t1 != [] && t1[0] == COMMA then Items(t1[1..], out + [r.0])
      else Failure(ExpectedCommaOr(CLOSE_BRACKET))
  }

  /** An object, after its brace. */
  function Object(t: Str): (r: Result<(JVal, Str), Error>)
    ensures r.Success? ==> |r.value.1| < |t|
    decreases |t|, 2
  {
    var rest := Ws(t);
    if rest != [] && rest[0] == CLOSE_BRACE then Success((JObj(map[]), rest[1..])) else Members(rest, map[])
  }

  /** A key and the colon after it. */
  function KeyColon(t: Str): (r: Result<(Str, Str), Error>)
    ensures r.Success? ==> |r.value.1| < |t|
  {
    match String(Ws(t))
    case Failure(e) => Failure(e)
    case Success(r) =>
      var t1 := Ws(r.1);
      if t1 != [] && t1[0] == COLON then Success((r.0, t1[1..])) else Failure(Expected(COLON))
  }

  /** The rest of an object, after the members in out. */
  function Members(t: Str, out: map<Str, JVal>): (r: Result<(JVal, Str), Error>)
    ensures r.Success? ==> |r.value.1| < |t|
    decreases |t|, 1
  {
    match KeyColon(t)
    case Failure(e) => Failure(e)
    case Success(k) =>
      match Value(Ws(k.1))
      case Failure(e) => Failure(e)
      case Success(r) =>
        var t1 := Ws(r.1);
        if t1 != [] && t1[0] == CLOSE_BRACE then Success((JObj(out[k.0 := r.0]), t1[1..]))
        else if t1 != [] && t1[0] == COMMA then Members(t1[1..], out[k.0 := r.0])
        else Failure(ExpectedCommaOr(CLOSE_BRACE))
  }

  function Parse(t: Str): Result<JVal, Error> {
    match Value(Ws(t))
    case Failure(e) => Failure(e)
    case Success(r) => if Ws(r.1) == [] then Success(r.0) else Failure(TrailingData)
  }
}
