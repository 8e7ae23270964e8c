/** The RESP2 codec of pkg/redisclient/client.go. A byte stream is a string whose
    characters are the bytes' codes. */
module Resp {
  import opened Decimals
  import opened Wrappers
  import Radix

  datatype Reply =
    | Status(text: string)
    | Integer(int_: int)
    | Bulk(payload: string)
    | Array(elements: seq<Reply>)
    | Nil

  datatype Error =
    | NoLine                    // the stream ended before a line feed
    | EmptyLine
    | ServerError(message: string)
    | BadInteger(line: string)
    | BadBulkLength(line: string)
    | BadArrayLength(line: string)
    | BadBuffer                 // n+2 is not an int64: the allocation panics
    | ShortPayload              // the stream ended inside a bulk payload
    | Unsupported(kind: char)

  const MIN_INT64: int := -0x8000_0000_0000_0000
  const MAX_INT64: int := 0x7FFF_FFFF_FFFF_FFFF

  // --- Numbers --------------------------------------------------------------------

  function Signed(s: string): bool {
    s != "" && (s[0] == '+' || s[0] == '-')
  }

  function Magnitude(s: string): string {
    if Signed(s) then s[1..] else s
  }

  function InInt64(v: int): Option<int> {
    if MIN_INT64 <= v <= MAX_INT64 then Some(v) else None
  }

  /** The number a digit string denotes. */
  function Natural(s: string): int
    requires AllDigits(s)
  {
    Radix.Value(Digits(s), 10)
  }

  /** strconv.ParseInt(s, 10, 64), which Atoi agrees with on 64-bit ints. */
  function ParseInt(s: string): Option<int> {
    var body := Magnitude(s);
    if body == "" || !AllDigits(body) then None
    else InInt64(if Signed(s) && s[0] == '-' then -Natural(body) else Natural(body))
  }

  function SignedDecimal(v: int): string {
    if v < 0 then "-" + Decimal(-v) else Decimal(v)
  }

  /** A decimal text is unsigned, and its digits denote the number. */
  lemma DecimalText(n: nat) returns (s: string)
    ensures s == Decimal(n) && s != "" && !Signed(s) && AllDigits(s) && Natural(s) == n
  {
    s := Decimal(n);
    DecimalDigits(n);
    assert IsDigit(s[0]);
  }

  lemma ParseText(s: string, digits: string, v: int)
    requires digits != "" && AllDigits(digits) && !Signed(digits) && MIN_INT64 <= v <= MAX_INT64
    requires v < 0 ==> s == "-" + digits && Natural(digits) == -v
    requires v >= 0 ==> s == digits && Natural(digits) == v
    ensures ParseInt(s) == Some(v)
  {
    assert Magnitude(s) == digits;
  }

  lemma SignedText(v: int) returns (s: string, digits: string)
    ensures s == SignedDecimal(v) && digits != "" && AllDigits(digits) && !Signed(digits)
    ensures v < 0 ==> s == "-" + digits && Natural(digits) == -v
    ensures v >= 0 ==> s == digits && Natural(digits) == v
  {
    digits := DecimalText(if v < 0 then -v else v);
    s := if v < 0 then "-" + digits else digits;
  }

  lemma ParseSignedDecimal(v: int)
    requires MIN_INT64 <= v <= MAX_INT64
    ensures ParseInt(SignedDecimal(v)) == Some(v)
  {
    var s, digits := SignedText(v);
    ParseText(s, digits, v);
  }

  // --- Reading, on values -----------------------------------------------------------

  /** Where the first line feed is, or the length if there is none. */
  function LineFeed(s: string): (k: nat)
    ensures k <= |s| && (k < |s| ==> s[k] == '\n')
    ensures forall i :: 0 <= i < k ==> s[i] != '\n'
  {
    if s == "" || s[0] == '\n' then 0 else 1 + LineFeed(s[1..])
  }

  function TrimRight(s: string): string {
    if s != "" && (s[|s| - 1] == '\r' || s[|s| - 1] == '\n') then TrimRight(s[..|s| - 1]) else s
  }

  /** The next line without its terminators, and what is left of the stream. */
  function ReadLine(s: string): (r: (Option<string>, string))
    ensures |r.1| <= |s| && (r.0.Some? ==> |r.1| < |s|)
  {
    var k := LineFeed(s);
    if k == |s| then (None, "") else (Some(TrimRight(s[..k + 1])), s[k + 1..])
  }

  /** What a reply's first line says: the whole reply, or what is still to be read. */
  datatype Header = Whole(reply: Result<Reply, Error>) | BulkOf(n: nat) | ArrayOf(n: nat)

  function HeaderOf(line: string): Header
    requires line != ""
  {
    match line[0]
    case '+' => Whole(Success(Status(line[1..])))
    case '-' => Whole(Failure(ServerError(line[1..])))
    case ':' =>
      (match ParseInt(line[1..])
       case Some(v) => Whole(Success(Integer(v)))
       case None => Whole(Failure(BadInteger(line))))
    case '$' =>
      (match ParseInt(line[1..])
       case None => Whole(Failure(BadBulkLength(line)))
       case Some(n) =>
         if n < 0 then Whole(Success(Nil)) else if n + 2 > MAX_INT64 then Whole(Failure(BadBuffer)) else BulkOf(n))
    case '*' =>
      (match ParseInt(line[1..])
       case None => Whole(Failure(BadArrayLength(line)))
       case Some(n) => if n < 0 then Whole(Success(Nil)) else ArrayOf(n))
    case _ => Whole(Failure(Unsupported(line[0])))
  }

  function ReadReply(s: string): (r: (Result<Reply, Error>, string))
    ensures |r.1| <= |s| && (r.0.Success? ==> |r.1| < |s|)
    decreases |s|, 0
  {
    var (l, rest) := ReadLine(s);
    if l.None? then (Failure(NoLine), rest)
    else if l.value == "" then (Failure(EmptyLine), rest)
    else
      match HeaderOf(l.value)
      case Whole(reply) => (reply, rest)
      case BulkOf(n) => ReadPayload(n, rest)
      case ArrayOf(n) => ReadElements(rest, n, [])
  }

  /** The payload and the two bytes after it, whatever they are. */
  function ReadPayload(n: nat, rest: string): (r: (Result<Reply, Error>, string))
    ensures |r.1| <= |rest|
  {
    if n + 2 > |rest| then (Failure(ShortPayload), "") else (Success(Bulk(rest[..n])), rest[n + 2..])
  }

  /** n more elements, after those already read. */
  function ReadElements(s: string, n: nat, read: seq<Reply>): (r: (Result<Reply, Error>, string))
    ensures |r.1| <= |s|
    decreases |s|, 1
  {
    if n == 0 then (Success(Array(read)), s)
    else
      var (el, rest) := ReadReply(s);
      match el
      case Failure(e) => (Failure(e), rest)
      case Success(v) => ReadElements(rest, n - 1, read + [v])
  }

  lemma ElementsStep(s: string, n: nat, read: seq<Reply>, v: Reply, rest: string)
    requires n > 0 && ReadReply(s) == (Success(v), rest)
    ensures ReadElements(s, n, read) == ReadElements(rest, n - 1, read + [v])
  {}

  lemma ElementsStop(s: string, n: nat, read: seq<Reply>, e: Error, rest: string)
    requires n > 0 && ReadReply(s) == (Failure(e), rest)
    ensures ReadElements(s, n, read) == (Failure(e), rest)
  {}

  // --- The stateful reader and the loops over it --------------------------------------

  class Reader {
    var rest: string

    constructor (s: string)
      ensures rest == s
    {
      rest := s;
    }

    method ReadString(delim: char) returns (text: string, ok: bool)
      modifies this
      ensures text + rest == old(rest)
      ensures ok ==> text != "" && text[|text| - 1] == delim && forall i :: 0 <= i < |text| - 1 ==> text[i] != delim
      ensures !ok ==> rest == "" && forall i :: 0 <= i < |text| ==> text[i] != delim
    {
      var k := 0;
      while k < |rest| && rest[k] != delim
        invariant k <= |rest| && forall i :: 0 <= i < k ==> rest[i] != delim
      {
        k := k + 1;
      }
      ok := k < |rest|;
      if ok {
        k := k + 1;
      }
      text, rest := rest[..k], rest[k..];
    }

    method ReadFull(n: nat) returns (buf: string, ok: bool)
      modifies this
      ensures ok <==> n <= |old(rest)|
      ensures buf + rest == old(rest) && (if ok then |buf| == n else rest == "")
    {
      ok := n <= |rest|;
      var k := if ok then n else |rest|;
      buf, rest := rest[..k], rest[k..];
    }
  }

  lemma LineFeedUnique(s: string, k: nat)
    requires k <= |s| && (k < |s| ==> s[k] == '\n')
    requires forall i :: 0 <= i < k ==> s[i] != '\n'
    ensures LineFeed(s) == k
  {}

  lemma NoFeedBefore(s: string, k: nat, line: string)
    requires k <= |line| && k <= |s| && s[..k] == line[..k] && '\n' !in line
    ensures forall i :: 0 <= i < k ==> s[i] != '\n'
  {
    forall i | 0 <= i < k
      ensures s[i] != '\n'
    {
      assert s[i] == s[..k][i] == line[..k][i] == line[i];
    }
  }

  method ReadLineFrom(r: Reader) returns (line: Option<string>)
    modifies r
    ensures (line, r.rest) == ReadLine(old(r.rest))
  {
    ghost var s := r.rest;
    var text, ok := r.ReadString('\n');
    if !ok {
      assert text == s;
      LineFeedUnique(s, |s|);
      return None;
    }
    assert s[..|text|] == text && s[|text|..] == r.rest;
    LineFeedUnique(s, |text| - 1);
    var n: nat := |text|;
    assert text[..n] == text;
    while n > 0 && (text[n - 1] == '\r' || text[n - 1] == '\n')
      invariant n <= |text| && TrimRight(text[..n]) == TrimRight(text)
    {
      assert text[..n][..n - 1] == text[..n - 1];
      n := n - 1;
    }
    return Some(text[..n]);
  }

  method ReadReplyFrom(r: Reader) returns (reply: Result<Reply, Error>)
    modifies r
    ensures (reply, r.rest) == ReadReply(old(r.rest))
    decreases |r.rest|, 0
  {
    var l := ReadLineFrom(r);
    if l.None? {
      return Failure(NoLine);
    }
    var line := l.value;
    if line == "" {
      return Failure(EmptyLine);
    }
    match line[0]
    case '+' => return Success(Status(line[1..]));
    case '-' => return Failure(ServerError(line[1..]));
    case ':' =>
      var v := ParseInt(line[1..]);
      return if v.Some? then Success(Integer(v.value)) else Failure(BadInteger(line));
    case '$' =>
      var n := ParseInt(line[1..]);
      if n.None? {
        return Failure(BadBulkLength(line));
      }
      if n.value < 0 {
        return Success(Nil);
      }
      if n.value + 2 > MAX_INT64 {
        return Failure(BadBuffer);
      }
      reply := ReadPayloadFrom(r, n.value);
    case '*' =>
      var n := ParseInt(line[1..]);
      if n.None? {
        return Failure(BadArrayLength(line));
      }
      if n.value < 0 {
        return Success(Nil);
      }
      reply := ReadElementsFrom(r, n.value);
    case _ => return Failure(Unsupported(line[0]));
  }

  method ReadPayloadFrom(r: Reader, n: nat) returns (reply: Result<Reply, Error>)
    modifies r
    ensures (reply, r.rest) == ReadPayload(n, old(r.rest))
  {
    ghost var s := r.rest;
    var buf, ok := r.ReadFull(n + 2);
    if !ok {
      return Failure(ShortPayload);
    }
    assert buf == s[..n + 2] && r.rest == s[n + 2..] && buf[..n] == s[..n];
    return Success(Bulk(buf[..n]));
  }

  method ReadElementsFrom(r: Reader, n: nat) returns (reply: Result<Reply, Error>)
    modifies r
    ensures (reply, r.rest) == ReadElements(old(r.rest), n, [])
    decreases |r.rest|, 1
  {
    var arr: seq<Reply> := [];
    var i := 0;
    while i < n
      invariant i <= n && |r.rest| <= |old(r.rest)|
      invariant ReadElements(old(r.rest), n, []) == ReadElements(r.rest, n - i, arr)
    {
      ghost var s := r.rest;
      var el := ReadReplyFrom(r);
      if el.Failure? {
        ElementsStop(s, n - i, arr, el.error, r.rest);
        return Failure(el.error);
      }
      ElementsStep(s, n - i, arr, el.value, r.rest);
      arr := arr + [el.value];
      i := i + 1;
    }
    return Success(Array(arr));
  }

  // --- Writing --------------------------------------------------------------------------

  const CRLF: string := "\r\n"

  function BulkText(a: string): string {
    "$" + Decimal(|a|) + CRLF + a + CRLF
  }

  function BulkTexts(args: seq<string>): string {
    if args == [] then "" else BulkText(args[0]) + BulkTexts(args[1..])
  }

  method EncodeCommand(args: seq<string>) returns (b: string)
    ensures b == "*" + Decimal(|args|) + CRLF + BulkTexts(args)
  {
    b := "*" + Decimal(|args|) + CRLF;
    ghost var head := b;
    for i := 0 to |args|
      invariant b + BulkTexts(args[i..]) == head + BulkTexts(args)
    {
      assert args[i..][1..] == args[i + 1..];
      b := b + ("$" + Decimal(|args[i]|) + CRLF + args[i] + CRLF);
    }
  }

  /** A reply as a server writes it in RESP2. */
  function Print(v: Reply): string
    decreases v, 0
  {
    match v
    case Status(text) => "+" + text + CRLF
    case Integer(n) => ":" + SignedDecimal(n) + CRLF
    case Bulk(payload) => BulkText(payload)
    case Nil => "$-1" + CRLF
    case Array(elements) => "*" + Decimal(|elements|) + CRLF + PrintAll(elements)
  }

  function PrintAll(vs: seq<Reply>): string
    decreases vs, 1
  {
    if vs == [] then "" else Print(vs[0]) + PrintAll(vs[1..])
  }

  /** Replies that RESP2 can carry: one-line statuses, int64 numbers and lengths. */
  ghost predicate Printable(v: Reply)
    decreases v
  {
    match v
    case Status(text) => '\n' !in text && (text == "" || text[|text| - 1] != '\r')
    case Integer(n) => MIN_INT64 <= n <= MAX_INT64
    case Bulk(payload) => |payload| + 2 <= MAX_INT64
    case Nil => true
    case Array(elements) => |elements| <= MAX_INT64 && forall i :: 0 <= i < |elements| ==> Printable(elements[i])
  }

  // --- Reading back what was written ------------------------------------------------------

  /** A line ends at its first line feed, and only terminators are trimmed. */
  lemma ReadLineBack(line: string, tail: string)
    requires '\n' !in line && (line == "" || line[|line| - 1] != '\r')
    ensures ReadLine(line + CRLF + tail) == (Some(line), tail)
  {
    var s := line + CRLF + tail;
    var k := |line| + 1;
    assert s[..|line|] == line[..|line|];
    NoFeedBefore(s, |line|, line);
    LineFeedUnique(s, k);
    assert s[..k + 1] == line + CRLF && s[k + 1..] == tail;
    TrimTerminators(line);
  }

  lemma TrimTerminators(line: string)
    requires '\n' !in line && (line == "" || line[|line| - 1] != '\r')
    ensures TrimRight(line + CRLF) == line
  {
    assert (line + CRLF)[..|line| + 1] == line + "\r";
    assert (line + "\r")[..|line|] == line;
    assert line != "" ==> line[|line| - 1] in line;
    assert TrimRight(line) == line;
    assert TrimRight(line + "\r") == line;
  }

  lemma NumberLine(kind: char, text: string)
    requires kind != '\n' && (AllDigits(text) || (text != "" && text[0] == '-' && AllDigits(text[1..]))) && text != ""
    ensures '\n' !in [kind] + text && text[|text| - 1] != '\r'
  {
    forall i | 0 <= i < |text|
      ensures text[i] == '-' || IsDigit(text[i])
    {
      if !AllDigits(text) && i > 0 {
        assert text[i] == text[1..][i - 1];
      }
    }
  }

  lemma SignedDecimalText(v: int)
    ensures SignedDecimal(v) != ""
    ensures AllDigits(SignedDecimal(v)) || (SignedDecimal(v)[0] == '-' && AllDigits(SignedDecimal(v)[1..]))
  {
    DecimalDigits(if v < 0 then -v else v);
    if v < 0 {
      assert SignedDecimal(v)[1..] == Decimal(-v);
    }
  }

  /** A line made of a kind and a number is read back, with the number. */
  lemma ReadNumberLine(kind: char, v: int, tail: string)
    requires kind != '\n' && MIN_INT64 <= v <= MAX_INT64
    ensures var line := [kind] + SignedDecimal(v);
            ReadLine(line + CRLF + tail) == (Some(line), tail) && line[1..] == SignedDecimal(v)
    ensures ParseInt(SignedDecimal(v)) == Some(v)
  {
    SignedDecimalText(v);
    NumberLine(kind, SignedDecimal(v));
    ReadLineBack([kind] + SignedDecimal(v), tail);
    ParseSignedDecimal(v);
  }

  lemma ReadByHeader(s: string, line: string, rest: string)
    requires line != "" && ReadLine(s) == (Some(line), rest)
    ensures ReadReply(s) == var h := HeaderOf(line);
                            if h.Whole? then (h.reply, rest)
                            else if h.BulkOf? then ReadPayload(h.n, rest)
                            else ReadElements(rest, h.n, [])
  {}

  lemma ReadBulkBack(a: string, tail: string)
    requires |a| + 2 <= MAX_INT64
    ensures ReadReply(BulkText(a) + tail) == (Success(Bulk(a)), tail)
  {
    var line, rest := ['$'] + SignedDecimal(|a|), a + CRLF + tail;
    ReadNumberLine('$', |a|, rest);
    assert BulkText(a) + tail == line + CRLF + rest;
    ReadByHeader(BulkText(a) + tail, line, rest);
    assert HeaderOf(line) == BulkOf(|a|);
    assert rest[..|a|] == a && rest[|a| + 2..] == tail;
  }

  /** readReply undoes the RESP2 printer and leaves exactly the tail, for every
      reply tree, whatever bytes its bulk strings hold. */
  lemma {:induction false} ReadPrintBack(v: Reply, tail: string)
    requires Printable(v)
    ensures ReadReply(Print(v) + tail) == (Success(v), tail)
    decreases v, 0
  {
    match v
    case Status(text) => StatusLine(text, tail);
    case Integer(n) => IntegerLine(n, tail);
    case Bulk(payload) => ReadBulkBack(payload, tail);
    case Nil => NilLine(tail);
    case Array(elements) =>
      ArrayLine(elements, tail);
      ReadPrintAllBack(elements, [], tail);
      assert [] + elements == elements;
  }

  lemma StatusLine(text: string, tail: string)
    requires Printable(Status(text))
    ensures ReadReply("+" + text + CRLF + tail) == (Success(Status(text)), tail)
  {
    var line := "+" + text;
    ReadLineBack(line, tail);
    ReadByHeader(line + CRLF + tail, line, tail);
    assert line[1..] == text;
  }

  lemma IntegerLine(n: int, tail: string)
    requires MIN_INT64 <= n <= MAX_INT64
    ensures ReadReply(":" + SignedDecimal(n) + CRLF + tail) == (Success(Integer(n)), tail)
  {
    var line := [':'] + SignedDecimal(n);
    ReadNumberLine(':', n, tail);
    ReadByHeader(line + CRLF + tail, line, tail);
  }

  lemma ArrayLine(elements: seq<Reply>, tail: string)
    requires |elements| <= MAX_INT64
    ensures ReadReply(Print(Array(elements)) + tail) == ReadElements(PrintAll(elements) + tail, |elements|, [])
  {
    var line, rest := ['*'] + SignedDecimal(|elements|), PrintAll(elements) + tail;
    ReadNumberLine('*', |elements|, rest);
    assert Print(Array(elements)) + tail == line + CRLF + rest;
    ReadByHeader(line + CRLF + rest, line, rest);
    assert HeaderOf(line) == ArrayOf(|elements|);
  }

  lemma NilLine(tail: string)
    ensures ReadReply("$-1" + CRLF + tail) == (Success(Nil), tail)
  {
    assert Radix.Numeral(1, 10) == Radix.Numeral(0, 10) + [1];
    assert Decimal(1) == "1";
    ReadNumberLine('$', -1, tail);
    var line := ['$'] + SignedDecimal(-1);
    assert line == "$-1";
    ReadByHeader(line + CRLF + tail, line, tail);
  }

  lemma {:induction false} ReadPrintAllBack(vs: seq<Reply>, read: seq<Reply>, tail: string)
    requires forall i :: 0 <= i < |vs| ==> Printable(vs[i])
    ensures ReadElements(PrintAll(vs) + tail, |vs|, read) == (Success(Array(read + vs)), tail)
    decreases vs, 1
  {
    if vs == [] {
      NoElements(read, tail);
    } else {
      var rest := PrintAll(vs[1..]) + tail;
      PrintAllHead(vs, tail);
      ReadPrintBack(vs[0], rest);
      ElementsStep(Print(vs[0]) + rest, |vs|, read, vs[0], rest);
      ReadPrintAllBack(vs[1..], read + [vs[0]], tail);
      Regroup(read, vs);
    }
  }

  lemma NoElements(read: seq<Reply>, tail: string)
    ensures ReadElements(PrintAll([]) + tail, 0, read) == (Success(Array(read + [])), tail)
  {
    assert PrintAll([]) + tail == tail && read + [] == read;
  }

  lemma Regroup(read: seq<Reply>, vs: seq<Reply>)
    requires vs != []
    ensures read + [vs[0]] + vs[1..] == read + vs
  {}

  lemma PrintAllHead(vs: seq<Reply>, tail: string)
    requires vs != []
    ensures PrintAll(vs) + tail == Print(vs[0]) + (PrintAll(vs[1..]) + tail)
  {}

  function Bulks(args: seq<string>): seq<Reply> {
    seq(|args|, i requires 0 <= i < |args| => Bulk(args[i]))
  }

  lemma {:induction false} BulkTextsPrint(args: seq<string>)
    ensures BulkTexts(args) == PrintAll(Bulks(args))
  {
    if args != [] {
      BulkTextsPrint(args[1..]);
      assert Bulks(args)[1..] == Bulks(args[1..]);
    }
  }

  /** A command sent is read as the array of its arguments, and nothing after it is touched. */
  lemma CommandRoundTrip(args: seq<string>, b: string, tail: string)
    requires b == "*" + Decimal(|args|) + CRLF + BulkTexts(args)
    requires |args| <= MAX_INT64 && forall i :: 0 <= i < |args| ==> |args[i]| + 2 <= MAX_INT64
    ensures ReadReply(b + tail) == (Success(Array(Bulks(args))), tail)
  {
    BulkTextsPrint(args);
    ReadPrintBack(Array(Bulks(args)), tail);
  }

  // --- A reply is decided by its own bytes --------------------------------------------------

  lemma LineExtends(s: string, t: string)
    requires ReadLine(s).0.Some?
    ensures ReadLine(s + t) == (ReadLine(s).0, ReadLine(s).1 + t)
  {
    var k := LineFeed(s);
    LineFeedUnique(s + t, k);
    assert (s + t)[..k + 1] == s[..k + 1] && (s + t)[k + 1..] == s[k + 1..] + t;
  }

  lemma PayloadExtends(n: nat, rest: string, t: string)
    requires ReadPayload(n, rest).0.Success?
    ensures ReadPayload(n, rest + t) == (ReadPayload(n, rest).0, ReadPayload(n, rest).1 + t)
  {
    assert (rest + t)[..n] == rest[..n] && (rest + t)[n + 2..] == rest[n + 2..] + t;
  }

  /** A reply that was read stays the reply when more bytes follow, and those
      bytes are left over: the protocol delimits itself. */
  lemma {:induction false} ReplyExtends(s: string, t: string)
    requires ReadReply(s).0.Success?
    ensures ReadReply(s + t) == (ReadReply(s).0, ReadReply(s).1 + t)
    decreases |s|, 0
  {
    LineExtends(s, t);
    var line, rest := ReadLine(s).0.value, ReadLine(s).1;
    ReadByHeader(s, line, rest);
    ReadByHeader(s + t, line, rest + t);
    match HeaderOf(line)
    case Whole(_) =>
    case BulkOf(n) => PayloadExtends(n, rest, t);
    case ArrayOf(n) =>
      ElementsExtend(rest, n, [], t);
  }

  lemma {:induction false} ElementsExtend(s: string, n: nat, read: seq<Reply>, t: string)
    requires ReadElements(s, n, read).0.Success?
    ensures ReadElements(s + t, n, read) == (ReadElements(s, n, read).0, ReadElements(s, n, read).1 + t)
    decreases |s|, 1
  {
    if n > 0 {
      ReplyExtends(s, t);
      var (el, rest) := ReadReply(s);
      ElementsExtend(rest, n - 1, read + [el.value], t);
    }
  }

  /** No printed reply is the beginning of another one, so a stream of them
      splits in one way only. */
  lemma PrintPrefixFree(v: Reply, w: Reply, s: string, t: string)
    requires Printable(v) && Printable(w) && Print(v) + s == Print(w) + t
    ensures v == w && s == t
  {
    ReadPrintBack(v, s);
    ReadPrintBack(w, t);
  }
}
