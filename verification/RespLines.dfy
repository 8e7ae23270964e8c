/** What every reply line of pkg/redisclient/client.go is read as, and the exact
    bytes a command is sent as. */
module RespLines {
  import opened Decimals
  import opened Wrappers
  import opened Resp
  import Radix

  // --- Numbers ------------------------------------------------------------------------

  /** The number decimal digits denote, most significant first. */
  function Denoted(s: string): int {
    if s == "" then 0 else 10 * Denoted(s[..|s| - 1]) + (s[|s| - 1] as int - 0x30)
  }

  ghost predicate DigitsOnly(s: string) {
    s != "" && forall i :: 0 <= i < |s| ==> '0' <= s[i] <= '9'
  }

  /** x is an optional sign and digits, and denotes v, an int64. */
  ghost predicate Int64Text(x: string, v: int) {
    && -9_223_372_036_854_775_808 <= v <= 9_223_372_036_854_775_807
    && if x != "" && (x[0] == '-' || x[0] == '+') then
         DigitsOnly(x[1..]) && v == if x[0] == '-' then -Denoted(x[1..]) else Denoted(x[1..])
       else DigitsOnly(x) && v == Denoted(x)
  }

  lemma {:induction false} DenotedIsNatural(s: string)
    requires AllDigits(s)
    ensures Denoted(s) == Natural(s)
  {
    if s != "" {
      var k := |s| - 1;
      assert IsDigit(s[k]);
      DenotedIsNatural(s[..k]);
      Radix.ValueSnoc(Digits(s[..k]), Digits(s)[k], 10);
      assert Digits(s) == Digits(s[..k]) + [Digits(s)[k]];
    }
  }

  lemma ParseIntIff(x: string, v: int)
    ensures ParseInt(x) == Some(v) <==> Int64Text(x, v)
  {
    var body := if x != "" && (x[0] == '-' || x[0] == '+') then x[1..] else x;
    assert Magnitude(x) == body;
    assert AllDigits(body) <==> forall i :: 0 <= i < |body| ==> '0' <= body[i] <= '9';
    if AllDigits(body) {
      DenotedIsNatural(body);
    }
  }

  ghost predicate NoInt64(x: string) {
    forall v :: !Int64Text(x, v)
  }

  lemma ParseIntNoneIff(x: string)
    ensures ParseInt(x).None? <==> NoInt64(x)
  {
    forall v ensures ParseInt(x) == Some(v) <==> Int64Text(x, v) {
      ParseIntIff(x, v);
    }
    if ParseInt(x).Some? {
      assert Int64Text(x, ParseInt(x).value);
    }
  }

  // --- Lines --------------------------------------------------------------------------

  ghost predicate OneLine(line: string) {
    '\n' !in line && (line == "" || line[|line| - 1] != '\r')
  }

  function Returns(n: nat): string {
    seq(n, _ => '\r')
  }

  lemma {:induction false} TrimReturns(line: string, n: nat)
    requires OneLine(line)
    ensures TrimRight(line + Returns(n)) == line
  {
    if n > 0 {
      assert (line + Returns(n))[..|line| + n - 1] == line + Returns(n - 1);
      TrimReturns(line, n - 1);
    } else {
      assert line + Returns(0) == line;
      assert line != "" ==> line[|line| - 1] in line;
    }
  }

  lemma {:induction false} FeedIs(s: string, k: nat)
    requires k < |s| && s[k] == '\n' && forall i :: 0 <= i < k ==> s[i] != '\n'
    ensures LineFeed(s) == k
  {
    if k > 0 {
      FeedIs(s[1..], k - 1);
    }
  }

  /** A line ends at its first line feed; carriage returns before it do not belong to it. */
  lemma LineIs(line: string, n: nat, tail: string)
    requires OneLine(line)
    ensures ReadLine(line + Returns(n) + "\n" + tail) == (Some(line), tail)
  {
    var s := line + Returns(n) + "\n" + tail;
    var k := |line| + n;
    forall i | 0 <= i < k
      ensures s[i] != '\n'
    {
      assert i < |line| ==> line[i] in line;
    }
    FeedIs(s, k);
    assert s[..k + 1] == line + Returns(n) + "\n" && s[k + 1..] == tail;
    assert (line + Returns(n) + "\n")[..k] == line + Returns(n);
    TrimReturns(line, n);
  }

  /** How far a reply with no line feed gets. */
  lemma NoFeed(s: string)
    requires '\n' !in s
    ensures ReadReply(s) == (Failure(NoLine), "")
  {
    forall i | 0 <= i < |s| ensures s[i] != '\n' {
      assert s[i] in s;
    }
  }

  lemma EmptyLineIs(n: nat, tail: string)
    ensures ReadReply(Returns(n) + "\n" + tail) == (Failure(EmptyLine), tail)
  {
    LineIs("", n, tail);
    assert "" + Returns(n) + "\n" + tail == Returns(n) + "\n" + tail;
  }

  /** What a line of kind c and text x, followed by `tail`, is read as. */
  lemma ReplyIs(c: char, x: string, n: nat, tail: string)
    requires OneLine([c] + x)
    ensures var r := ReadReply([c] + x + Returns(n) + "\n" + tail);
            && (c == '+' ==> r == (Success(Status(x)), tail))
            && (c == '-' ==> r == (Failure(ServerError(x)), tail))
            && (c == ':' ==>
                  && (forall v :: Int64Text(x, v) ==> r == (Success(Integer(v)), tail))
                  && (NoInt64(x) ==> r == (Failure(BadInteger([c] + x)), tail)))
            && (c == '$' ==>
                  && (NoInt64(x) ==> r == (Failure(BadBulkLength([c] + x)), tail))
                  && (forall v :: Int64Text(x, v) && v < 0 ==> r == (Success(Nil), tail))
                  && (forall v :: Int64Text(x, v) && 0 <= v <= |tail| - 2 && v + 2 <= MAX_INT64 ==>
                        r == (Success(Bulk(tail[..v])), tail[v + 2..]))
                  && (forall v :: Int64Text(x, v) && v >= 0 && v + 2 > |tail| && v + 2 <= MAX_INT64 ==>
                        r == (Failure(ShortPayload), "")))
            && (c == '*' ==>
                  && (NoInt64(x) ==> r == (Failure(BadArrayLength([c] + x)), tail))
                  && (forall v :: Int64Text(x, v) && v < 0 ==> r == (Success(Nil), tail))
                  && (forall v :: Int64Text(x, v) && v == 0 ==> r == (Success(Array([])), tail)))
            && (c !in {'+', '-', ':', '$', '*'} ==> r == (Failure(Unsupported(c)), tail))
  {
    var line := [c] + x;
    var s := line + Returns(n) + "\n" + tail;
    LineIs(line, n, tail);
    assert line[1..] == x;
    ReadByHeader(s, line, tail);
    ParseIntNoneIff(x);
    forall v ensures ParseInt(x) == Some(v) <==> Int64Text(x, v) {
      ParseIntIff(x, v);
    }
  }

  /** An array is read element by element, and fails where an element does. */
  lemma ArrayIs(x: string, v: nat, n: nat, tail: string)
    requires OneLine(['*'] + x) && Int64Text(x, v)
    ensures ReadReply(['*'] + x + Returns(n) + "\n" + tail) == ReadElements(tail, v, [])
  {
    var line := ['*'] + x;
    LineIs(line, n, tail);
    assert line[1..] == x;
    ReadByHeader(line + Returns(n) + "\n" + tail, line, tail);
    ParseIntIff(x, v);
  }

  // --- Commands ------------------------------------------------------------------------

  /** An argument: its length and its bytes, both ended by \r\n. */
  function Argument(a: string): string {
    "$" + Decimal(|a|) + "\r\n" + a + "\r\n"
  }

  /** The arguments, from the last one. */
  function ArgumentBytes(args: seq<string>): string {
    if args == [] then ""
    else
      ArgumentBytes(args[..|args| - 1]) + Argument(args[|args| - 1])
  }

  lemma {:induction false} ArgumentsAre(args: seq<string>, last: seq<string>)
    ensures BulkTexts(args + last) == BulkTexts(args) + BulkTexts(last)
    decreases |args|
  {
    if args == [] {
      assert args + last == last;
    } else {
      assert (args + last)[1..] == args[1..] + last;
      ArgumentsAre(args[1..], last);
    }
  }

  lemma OneArgument(a: string)
    ensures BulkTexts([a]) == Argument(a)
  {
    assert [a][1..] == [];
    assert BulkTexts([a]) == BulkText(a) + "" == BulkText(a);
  }

  lemma LastArgument(args: seq<string>)
    requires args != []
    ensures BulkTexts(args) == BulkTexts(args[..|args| - 1]) + Argument(args[|args| - 1])
  {
    var k := |args| - 1;
    OneArgument(args[k]);
    ArgumentsAre(args[..k], [args[k]]);
    assert args == args[..k] + [args[k]];
  }

  lemma {:induction false} CommandBytes(args: seq<string>)
    ensures BulkTexts(args) == ArgumentBytes(args)
    decreases |args|
  {
    if args != [] {
      CommandBytes(args[..|args| - 1]);
      LastArgument(args);
    }
  }

  /** The decimal text of a number is the digits that denote it, without leading zeros. */
  lemma DecimalIs(n: nat)
    ensures DigitsOnly(Decimal(n)) && Denoted(Decimal(n)) == n && (Decimal(n)[0] == '0' ==> n == 0)
  {
    DecimalDigits(n);
    DenotedIsNatural(Decimal(n));
    assert forall i :: 0 <= i < |Decimal(n)| ==> IsDigit(Decimal(n)[i]);
    if n > 0 {
      Radix.NumeralValue(n, 10);
    }
  }
}
