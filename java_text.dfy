/** The pieces of the Java library the record codecs rely on: the tokens a
    java.util.Scanner with delimiter "," yields, its nextInt, Integer.toString (used by
    string concatenation) and 32-bit wrap-around. */
module JavaText {
  import opened Base

  predicate IsDigit(c: char) { '0' <= c <= '9' }

  predicate AllDigits(s: string) { forall i :: 0 <= i < |s| ==> IsDigit(s[i]) }

  /** The number a string of decimal digits denotes, most significant digit first. */
  function DigitsValue(s: string): nat
    requires AllDigits(s)
  {
    if s == [] then 0 else 10 * DigitsValue(s[..|s| - 1]) + (s[|s| - 1] as int - '0' as int)
  }

  function DigitChar(d: nat): (c: char)
    requires d < 10
    ensures IsDigit(c) && c as int - '0' as int == d
  {
    ('0' as int + d) as char
  }

  /** Decimal digits of n without leading zeros. */
  function NatToDigits(n: nat): (s: string)
    ensures s != [] && AllDigits(s)
  {
    if n < 10 then [DigitChar(n)] else NatToDigits(n / 10) + [DigitChar(n % 10)]
  }

  lemma {:induction false} DigitsValueOfNat(n: nat)
    ensures DigitsValue(NatToDigits(n)) == n
  {
    if n >= 10 {
      var s := NatToDigits(n);
      assert s[..|s| - 1] == NatToDigits(n / 10);
      DigitsValueOfNat(n / 10);
    }
  }

  /** Integer.toString: a minus sign for negative numbers, then the digits. */
  function IntToString(n: int): (s: string)
    ensures s != [] && ',' !in s
  {
    if n < 0 then "-" + NatToDigits(-n) else NatToDigits(n)
  }

  /** Scanner.nextInt applied to one token: an optional minus sign and at least one
      decimal digit, denoting a value that fits in an int; anything else is an
      InputMismatchException (None). */
  function ParseInt(token: string): (r: Option<int32>)
    ensures r.Some? ==> token != [] && (IsDigit(token[0]) || token[0] == '-')
    ensures r.Some? ==> forall i :: 0 < i < |token| ==> IsDigit(token[i])
  {
    var negative := token != [] && token[0] == '-';
    var digits := if negative then token[1..] else token;
    if digits == [] || !AllDigits(digits) then None
    else
      var v: int := if negative then -(DigitsValue(digits) as int) else DigitsValue(digits);
      if -0x8000_0000 <= v < 0x8000_0000 then Some(v as int32) else None
  }

  /** nextInt reads back every int that Integer.toString writes. */
  lemma ParseIntOfIntToString(n: int32)
    ensures ParseInt(IntToString(n as int)) == Some(n)
  {
    var m: nat := if n < 0 then -(n as int) else n as int;
    var d := NatToDigits(m);
    DigitsValueOfNat(m);
    if n < 0 {
      assert IntToString(n as int) == "-" + d;
      assert ("-" + d)[1..] == d;
    } else {
      assert IsDigit(d[0]);
    }
  }

  /** Java's int arithmetic: x reduced modulo 2^32 into the int range. */
  function Wrap32(x: int): (r: int32)
    ensures (r as int - x) % 0x1_0000_0000 == 0
  {
    var m := x % 0x1_0000_0000;
    (if m < 0x8000_0000 then m else m - 0x1_0000_0000) as int32
  }

  /** Index of the first ',' in s, or |s| when there is none. */
  function IndexOfComma(s: string): (k: nat)
    ensures k <= |s|
    ensures k < |s| ==> s[k] == ','
  {
    if s == [] || s[0] == ',' then 0 else 1 + IndexOfComma(s[1..])
  }

  lemma {:induction false} IndexOfCommaAbsent(s: string)
    requires ',' !in s
    ensures IndexOfComma(s) == |s|
  {
    if s != [] {
      assert s[0] in s;
      assert forall c :: c in s[1..] ==> c in s;
      IndexOfCommaAbsent(s[1..]);
    }
  }

  /** Text after the first ',' of s does not move that comma. */
  lemma {:induction false} IndexOfCommaAppend(s: string, t: string)
    requires IndexOfComma(s) < |s| || t == [] || t[0] == ','
    ensures IndexOfComma(s + t) == IndexOfComma(s)
  {
    if s == [] {
      assert s + t == t;
    } else if s[0] != ',' {
      assert (s + t)[1..] == s[1..] + t;
      IndexOfCommaAppend(s[1..], t);
    }
  }

  /** What is left of s once the scanner has skipped one delimiter, if s starts with one. */
  function SkipDelimiter(s: string): (rest: string)
    ensures |rest| <= |s|
  {
    if s != [] && s[0] == ',' then s[1..] else s
  }

  lemma SkipDelimiterAppend(a: string, s: string)
    requires a != []
    ensures SkipDelimiter(a + s) == SkipDelimiter(a) + s
  {
    if a[0] == ',' {
      assert (a + s)[1..] == a[1..] + s;
    }
  }

  /** The tokens a Scanner with delimiter "," returns from s, in order. Before each
      token the scanner skips one delimiter if one is there; the token then runs up to
      the next ',' or the end of s; when nothing is left after the skip there is no
      further token. So "a,,b" yields "a", "", "b", and a single leading or trailing
      ',' yields no token. */
  function Tokens(s: string): seq<string>
    decreases |s|
  {
    var rest := SkipDelimiter(s);
    if rest == [] then []
    else
      var k := IndexOfComma(rest);
      [rest[..k]] + Tokens(rest[k..])
  }

  /** No ',' comes before the index IndexOfComma finds. */
  lemma {:induction false} IndexOfCommaFirst(s: string)
    ensures ',' !in s[..IndexOfComma(s)]
  {
    if s != [] && s[0] != ',' {
      IndexOfCommaFirst(s[1..]);
      assert s[..IndexOfComma(s)] == [s[0]] + s[1..][..IndexOfComma(s[1..])];
    }
  }

  /** No token the scanner yields holds the delimiter. */
  lemma {:induction false} TokensHoldNoDelimiter(s: string)
    ensures forall i :: 0 <= i < |Tokens(s)| ==> ',' !in Tokens(s)[i]
    decreases |s|
  {
    var rest := SkipDelimiter(s);
    if rest != [] {
      var k := IndexOfComma(rest);
      IndexOfCommaFirst(rest);
      TokensHoldNoDelimiter(rest[k..]);
      TokensStep(s, rest, k);
    }
  }

  /** A single leading ',' is skipped. */
  lemma TokensLeadingDelimiter()
    ensures Tokens(",a") == ["a"]
  {
    TokensOfPlainField("a");
    assert ",a" == "," + "a";
  }

  /** ",," yields an empty token. */
  lemma TokensEmptyBetween()
    ensures Tokens("a,,b") == ["a", "", "b"]
  {
    TokensOfPlainField("b");
    assert ",b" == "," + "b";
    TokensStep(",,b", ",b", 0);
    assert ",b"[..0] == "" && ",b"[0..] == ",b";
    TokensStep("a,,b", "a,,b", 1);
    assert "a,,b"[..1] == "a" && "a,,b"[1..] == ",,b";
  }

  /** A single trailing ',' yields no token. */
  lemma TokensTrailingDelimiter()
    ensures Tokens("a,") == ["a"]
  {
    assert Tokens(",") == [];
    TokensStep("a,", "a,", 1);
    assert "a,"[..1] == "a" && "a,"[1..] == ",";
  }

  /** One step of the scanner: the first token of s and the text it leaves. */
  lemma TokensStep(s: string, rest: string, k: nat)
    requires rest == SkipDelimiter(s) && rest != []
    requires k == IndexOfComma(rest)
    ensures Tokens(s) == [rest[..k]] + Tokens(rest[k..])
  {
  }

  /** Scanning rest + s, where s is empty or starts with ',': the first token is the
      one rest starts with. */
  lemma FirstTokenOfAppend(rest: string, s: string)
    requires s == [] || s[0] == ','
    ensures var k := IndexOfComma(rest);
      IndexOfComma(rest + s) == k && (rest + s)[..k] == rest[..k] && (rest + s)[k..] == rest[k..] + s
  {
    IndexOfCommaAppend(rest, s);
  }

  lemma TakeAll<T>(s: seq<T>)
    ensures s[..|s|] == s
  {
  }

  /** A non-empty sequence is its front followed by its last element. */
  lemma InitThenLast<T>(s: seq<T>)
    requires s != []
    ensures s[..|s| - 1] + [s[|s| - 1]] == s
  {
  }

  lemma PrependThenAppend<T>(x: T, whole: seq<T>, tail: seq<T>, wholeMore: seq<T>, tailMore: seq<T>, more: seq<T>)
    requires whole == [x] + tail && wholeMore == [x] + tailMore
    requires tailMore == tail + more
    ensures wholeMore == whole + more
  {
  }

  /** Text that does not end in ',' followed by text that starts with ',' (or is
      empty) is scanned as the tokens of the first part and then those of the second. */
  lemma {:induction false} TokensAppend(a: string, s: string)
    requires a == [] || a[|a| - 1] != ','
    requires s == [] || s[0] == ','
    ensures Tokens(a + s) == Tokens(a) + Tokens(s)
    decreases |a|
  {
    if a == [] {
      assert a + s == s;
    } else {
      var rest := SkipDelimiter(a);
      assert rest != [];
      var k := IndexOfComma(rest);
      var tail := rest[k..];
      TokensStep(a, rest, k);
      SkipDelimiterAppend(a, s);
      FirstTokenOfAppend(rest, s);
      TokensStep(a + s, rest + s, k);
      assert Tokens(a + s) == [rest[..k]] + Tokens(tail + s);
      if k < |rest| {
        assert tail[|tail| - 1] == a[|a| - 1];
        TokensAppend(tail, s);
      } else {
        assert tail == [] && tail + s == s;
        assert Tokens(tail) == [];
        assert Tokens(tail + s) == Tokens(tail) + Tokens(s);
      }
      PrependThenAppend(rest[..k], Tokens(a), Tokens(tail), Tokens(a + s), Tokens(tail + s), Tokens(s));
    }
  }

  /** A field of a record line that reads back as itself: not empty and free of ','. */
  predicate PlainField(f: string) { f != [] && ',' !in f }

  /** The fields separated by ','. */
  function JoinFields(fields: seq<string>): string
  {
    if fields == [] then ""
    else if |fields| == 1 then fields[0]
    else JoinFields(fields[..|fields| - 1]) + "," + fields[|fields| - 1]
  }

  lemma TokensOfPlainField(f: string)
    requires PlainField(f)
    ensures Tokens(f) == [f] && Tokens("," + f) == [f]
  {
    IndexOfCommaAbsent(f);
    assert f[0] in f;
    assert f[..|f|] == f && f[|f|..] == [];
    assert ("," + f)[1..] == f;
  }

  lemma {:induction false} JoinFieldsEnd(fields: seq<string>)
    requires |fields| > 0 && PlainField(fields[|fields| - 1])
    ensures var j := JoinFields(fields); j != [] && j[|j| - 1] != ','
  {
    var last := fields[|fields| - 1];
    assert last[|last| - 1] in last;
  }

  /** One more plain field joined on: its tokens follow those of the line before. */
  lemma TokensOfJoinFieldsStep(head: string, last: string, init: seq<string>)
    requires Tokens(head) == init && head != [] && head[|head| - 1] != ','
    requires PlainField(last)
    ensures Tokens(head + ("," + last)) == init + [last]
  {
    TokensOfPlainField(last);
    TokensAppend(head, "," + last);
  }

  /** Joining plain fields with ',' and scanning the line gives the fields back. */
  lemma {:induction false} TokensOfJoinFields(fields: seq<string>)
    requires forall i :: 0 <= i < |fields| ==> PlainField(fields[i])
    ensures Tokens(JoinFields(fields)) == fields
  {
    if |fields| == 1 {
      TokensOfPlainField(fields[0]);
    } else if |fields| > 1 {
      var init, last := fields[..|fields| - 1], fields[|fields| - 1];
      var head := JoinFields(init);
      assert JoinFields(fields) == head + ("," + last);
      assert forall i :: 0 <= i < |init| ==> init[i] == fields[i];
      TokensOfJoinFields(init);
      JoinFieldsEnd(init);
      TokensOfJoinFieldsStep(head, last, init);
      InitThenLast(fields);
    }
  }
}
