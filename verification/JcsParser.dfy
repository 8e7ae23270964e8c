/** The stateful parser of sdk/typescript/src/jcs.ts: a cursor over the text,
    each method proved against the parsing functions on what is left. */
module JcsParser {
  import opened Jcs
  import opened Wrappers

  /** A parsing result whose rest is where the cursor is now. */
  function At<T>(r: Result<T, Error>, rest: Str): Result<(T, Str), Error> {
    match r
    case Success(v) => Success((v, rest))
    case Failure(e) => Failure(e)
  }

  lemma PrefixAt(s: Str, i: nat, word: Str)
    requires i <= |s|
    ensures word <= s[i..] <==> i + |word| <= |s| && s[i..i + |word|] == word
  {
    if i + |word| <= |s| {
      assert s[i..][..|word|] == s[i..i + |word|];
    }
  }

  class Parser {
    const s: Str
    var i: nat

    constructor (s: Str)
      ensures this.s == s && Rest() == s
    {
      this.s := s;
      i := 0;
    }

    /** What is left; nothing when a \u escape moved the cursor past the end. */
    function Rest(): Str
      reads this
    {
      if i <= |s| then s[i..] else []
    }

    method SkipWs()
      requires i <= |s|
      modifies this
      ensures i <= |s| && Rest() == Ws(old(Rest()))
    {
      while i < |s| && IsWs(s[i])
        invariant i <= |s| && Ws(Rest()) == Ws(old(Rest()))
      {
        assert Rest()[1..] == s[i + 1..];
        i := i + 1;
      }
    }

    method Expect(ch: Unit) returns (ok: bool)
      requires i <= |s|
      modifies this
      ensures i <= |s|
      ensures ok <==> old(Rest()) != [] && old(Rest())[0] == ch
      ensures Rest() == if ok then old(Rest())[1..] else old(Rest())
    {
      if i == |s| || s[i] != ch {
        return false;
      }
      assert Rest()[1..] == s[i + 1..];
      i := i + 1;
      return true;
    }

    /** The case after a backslash; \u may move the cursor past the end. */
    method ParseEscape() returns (r: Result<Unit, Error>)
      requires i <= |s|
      modifies this
      ensures Escape(old(Rest())) == At(r, Rest())
    {
      ghost var t := Rest();
      if i == |s| {
        return Failure(BadEscape(None));
      }
      var e := s[i];
      i := i + 1;
      assert e == t[0] && Rest() == t[1..];
      if ShortEscape(e).Some? {
        return Success(ShortEscape(e).value);
      }
      if e != LETTER_U {
        return Failure(BadEscape(Some(e)));
      }
      var hex := if i + 4 <= |s| then s[i..i + 4] else s[i..];
      assert hex == if |t| < 5 then t[1..] else t[1..5];
      i := i + 4;
      assert Rest() == if |t| < 5 then [] else t[5..];
      return Success(CodeUnit(hex));
    }

    method ParseString() returns (r: Result<Str, Error>)
      requires i <= |s|
      modifies this
      ensures r.Success? ==> i <= |s|
      ensures String(old(Rest())) == At(r, Rest())
    {
      var quoted := Expect(QUOTE);
      if !quoted {
        return Failure(Expected(QUOTE));
      }
      ghost var start := Rest();
      var out: Str := [];
      while true
        invariant Chars(start, []) == Chars(Rest(), out)
        decreases |Rest()|
      {
        if i >= |s| {
          return Failure(UnterminatedString);
        }
        assert Rest()[1..] == s[i + 1..];
        var c := s[i];
        i := i + 1;
        if c == QUOTE {
          return Success(out);
        }
        if c != BACKSLASH {
          out := out + [c];
        } else {
          var e := ParseEscape();
          if e.Failure? {
            return Failure(e.error);
          }
          out := out + [e.value];
        }
      }
    }

    method ParseNumber() returns (v: JVal)
      requires i < |s| && (s[i] == MINUS || IsDigitUnit(s[i]))
      modifies this
      ensures i <= |s| && Value(old(Rest())) == Success((v, Rest()))
    {
      var start := i;
      ghost var t := Rest();
      if s[i] == MINUS {
        i := i + 1;
      }
      while i < |s| && IsNumberUnit(s[i])
        invariant start <= i <= |s| && forall j :: start <= j < i ==> IsNumberUnit(s[j])
      {
        i := i + 1;
      }
      assert i - start == NumberRun(t) by {
        RunIs(t, i - start);
      }
      assert t[..i - start] == s[start..i] && t[i - start..] == s[i..];
      return JNum(s[start..i]);
    }

    /** s.startsWith(word, i) */
    method StartsWith(word: Str) returns (yes: bool)
      requires i <= |s|
      ensures yes <==> word <= Rest()
    {
      PrefixAt(s, i, word);
      yes := i + |word| <= |s| && s[i..i + |word|] == word;
    }

    method ParseBool() returns (r: Result<JVal, Error>)
      requires i < |s| && (s[i] == LETTER_T || s[i] == LETTER_F)
      modifies this
      ensures r.Success? ==> i <= |s|
      ensures Value(old(Rest())) == At(r, Rest())
    {
      ghost var t := Rest();
      var yes := StartsWith(TRUE);
      if yes {
        i := i + 4;
        assert Rest() == t[4..];
        return Success(JBool(true));
      }
      var no := StartsWith(FALSE);
      if no {
        i := i + 5;
        assert Rest() == t[5..];
        return Success(JBool(false));
      }
      return Failure(InvalidLiteral);
    }

    method ParseNull() returns (r: Result<JVal, Error>)
      requires i < |s| && s[i] == LETTER_N
      modifies this
      ensures r.Success? ==> i <= |s|
      ensures Value(old(Rest())) == At(r, Rest())
    {
      ghost var t := Rest();
      var yes := StartsWith(NULL);
      if yes {
        i := i + 4;
        assert Rest() == t[4..];
        return Success(JNull);
      }
      return Failure(InvalidLiteral);
    }

    method ParseValue() returns (r: Result<JVal, Error>)
      requires i <= |s|
      modifies this
      ensures r.Success? ==> i <= |s|
      ensures Value(old(Rest())) == At(r, Rest())
      decreases |Rest()|, 1
    {
      if i == |s| {
        return Failure(UnexpectedEnd);
      }
      var c := s[i];
      if c == OPEN_BRACE {
        r := ParseObject();
      } else if c == OPEN_BRACKET {
        r := ParseArray();
      } else if c == QUOTE {
        var text := ParseString();
        if text.Failure? {
          return Failure(text.error);
        }
        return Success(JStr(text.value));
      } else if c == LETTER_T || c == LETTER_F {
        r := ParseBool();
      } else if c == LETTER_N {
        r := ParseNull();
      } else if c == MINUS || IsDigitUnit(c) {
        var v := ParseNumber();
        return Success(v);
      } else {
        return Failure(UnexpectedCharacter(c));
      }
    }

    /** After an item or member: true if the close unit follows, false if a comma does. */
    method CommaOr(close: Unit) returns (r: Result<bool, Error>)
      requires i <= |s| && close != COMMA
      modifies this
      ensures i <= |s|
      ensures var t := Ws(old(Rest()));
              if t != [] && t[0] == close then r == Success(true) && Rest() == t[1..]
              else if t != [] && t[0] == COMMA then r == Success(false) && Rest() == t[1..]
              else r == Failure(ExpectedCommaOr(close))
    {
      SkipWs();
      if i == |s| {
        return Failure(ExpectedCommaOr(close));
      }
      var ch := s[i];
      assert Rest()[1..] == s[i + 1..];
      if ch != close && ch != COMMA {
        return Failure(ExpectedCommaOr(close));
      }
      i := i + 1;
      return Success(ch == close);
    }

    method ParseArray() returns (r: Result<JVal, Error>)
      requires i < |s| && s[i] == OPEN_BRACKET
      modifies this
      ensures r.Success? ==> i <= |s|
      ensures Array(old(Rest())[1..]) == At(r, Rest())
      decreases |Rest()|, 0
    {
      var ok := Expect(OPEN_BRACKET);
      SkipWs();
      var closed := Expect(CLOSE_BRACKET);
      if closed {
        return Success(JArr([]));
      }
      ghost var start := Rest();
      var out: seq<JVal> := [];
      while true
        invariant i <= |s| && |Rest()| < |old(Rest())|
        invariant Items(start, []) == Items(Rest(), out)
        decreases |Rest()|
      {
        SkipWs();
        var v := ParseValue();
        if v.Failure? {
          return Failure(v.error);
        }
        out := out + [v.value];
        var end := CommaOr(CLOSE_BRACKET);
        if end.Failure? {
          return Failure(end.error);
        }
        if end.value {
          return Success(JArr(out));
        }
      }
    }

    method ParseKey() returns (r: Result<Str, Error>)
      requires i <= |s|
      modifies this
      ensures r.Success? ==> i <= |s|
      ensures KeyColon(old(Rest())) == At(r, Rest())
    {
      SkipWs();
      r := ParseString();
      if r.Failure? {
        return;
      }
      SkipWs();
      var colon := Expect(COLON);
      if !colon {
        return Failure(Expected(COLON));
      }
    }

    method ParseObject() returns (r: Result<JVal, Error>)
      requires i < |s| && s[i] == OPEN_BRACE
      modifies this
      ensures r.Success? ==> i <= |s|
      ensures Object(old(Rest())[1..]) == At(r, Rest())
      decreases |Rest()|, 0
    {
      var ok := Expect(OPEN_BRACE);
      SkipWs();
      var closed := Expect(CLOSE_BRACE);
      if closed {
        return Success(JObj(map[]));
      }
      ghost var start := Rest();
      var out: map<Str, JVal> := map[];
      while true
        invariant i <= |s| && |Rest()| < |old(Rest())|
        invariant Members(start, map[]) == Members(Rest(), out)
        decreases |Rest()|
      {
        var key := ParseKey();
        if key.Failure? {
          return Failure(key.error);
        }
        SkipWs();
        var v := ParseValue();
        if v.Failure? {
          return Failure(v.error);
        }
        out := out[key.value := v.value];
        var end := CommaOr(CLOSE_BRACE);
        if end.Failure? {
          return Failure(end.error);
        }
        if end.value {
          return Success(JObj(out));
        }
      }
    }

    method ParseText() returns (r: Result<JVal, Error>)
      requires i == 0
      modifies this
      ensures r == Parse(s)
    {
      assert Rest() == s;
      SkipWs();
      r := ParseValue();
      if r.Failure? {
        return;
      }
      SkipWs();
      if i != |s| {
        return Failure(TrailingData);
      }
    }
  }
}
