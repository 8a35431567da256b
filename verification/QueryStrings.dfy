/** Percent encoding and query strings, as Python's urllib writes and reads them. Text
    is a sequence of bytes, one character each. */
module QueryStrings {
  import opened Outcomes

  type Pair = (string, string)

  predicate IsByte(ch: char) {
    ch as int < 256
  }

  ghost predicate AllBytes(text: string) {
    forall i :: 0 <= i < |text| ==> IsByte(text[i])
  }

  // ---------------------------------------------------------------- percent encoding

  predicate IsSafe(ch: char) {
    '0' <= ch <= '9' || 'A' <= ch <= 'Z' || 'a' <= ch <= 'z' || ch == '_' || ch == '.' || ch == '-' || ch == '~'
  }

  function UpperHex(n: nat): char
    requires n < 16
  {
    if n < 10 then '0' + n as char else 'A' + (n - 10) as char
  }

  predicate IsHex(ch: char) {
    '0' <= ch <= '9' || 'a' <= ch <= 'f' || 'A' <= ch <= 'F'
  }

  function HexValue(ch: char): (n: nat)
    requires IsHex(ch)
    ensures n < 16
  {
    if '0' <= ch <= '9' then (ch as int) - ('0' as int)
    else if 'a' <= ch <= 'f' then (ch as int) - ('a' as int) + 10
    else (ch as int) - ('A' as int) + 10
  }

  function QuoteByte(ch: char): string
    requires IsByte(ch)
  {
    if IsSafe(ch) then [ch]
    else if ch == ' ' then "+"
    else ['%', UpperHex(ch as int / 16), UpperHex(ch as int % 16)]
  }

  function Quote(text: string): string
    requires AllBytes(text)
  {
    if text == [] then [] else QuoteByte(text[0]) + Quote(text[1..])
  }

  /** Unquoting after '+' became a space; a '%' without two hex digits stays. */
  function Unquote(text: string): string {
    if text == [] then []
    else if text[0] == '%' && |text| >= 3 && IsHex(text[1]) && IsHex(text[2]) then
      [(HexValue(text[1]) * 16 + HexValue(text[2])) as char] + Unquote(text[3..])
    else [if text[0] == '+' then ' ' else text[0]] + Unquote(text[1..])
  }

  lemma UnquoteByte(ch: char, rest: string)
    requires IsByte(ch)
    ensures Unquote(QuoteByte(ch) + rest) == [ch] + Unquote(rest)
  {
    var text := QuoteByte(ch) + rest;
    if IsSafe(ch) || ch == ' ' {
      assert text[1..] == rest;
    } else {
      assert text[3..] == rest;
    }
  }

  lemma {:induction false} UnquoteQuote(text: string)
    requires AllBytes(text)
    ensures Unquote(Quote(text)) == text
  {
    if text != [] {
      UnquoteQuote(text[1..]);
      UnquoteByte(text[0], Quote(text[1..]));
    }
  }

  /** Nothing that separates fields, ends the query or is refused in a magnet. */
  predicate IsQuoted(ch: char) {
    ch != '&' && ch != '=' && ch != '#' && 33 <= ch as int < 127
  }

  ghost predicate Quoted(text: string) {
    forall i :: 0 <= i < |text| ==> IsQuoted(text[i])
  }

  lemma {:induction false} QuoteIsQuoted(text: string)
    requires AllBytes(text)
    ensures Quoted(Quote(text)) && (text != [] ==> Quote(text) != [])
  {
    if text != [] {
      QuoteIsQuoted(text[1..]);
      var head, rest := QuoteByte(text[0]), Quote(text[1..]);
      forall i | 0 <= i < |head + rest| ensures IsQuoted((head + rest)[i]) {
        if i >= |head| {
          assert (head + rest)[i] == rest[i - |head|];
        }
      }
    }
  }

  // ---------------------------------------------------------------- splitting

  function SplitAll(text: string, sep: char): (parts: seq<string>)
    ensures parts != []
  {
    if text == [] then [[]]
    else
      var rest := SplitAll(text[1..], sep);
      if text[0] == sep then [[]] + rest else [[text[0]] + rest[0]] + rest[1..]
  }

  function JoinAll(parts: seq<string>, sep: char): string
    requires parts != []
  {
    if |parts| == 1 then parts[0] else parts[0] + [sep] + JoinAll(parts[1..], sep)
  }

  ghost predicate Lacks(text: string, sep: char) {
    forall i :: 0 <= i < |text| ==> text[i] != sep
  }

  lemma {:induction false} SplitPrefix(head: string, rest: string, sep: char)
    requires Lacks(head, sep)
    ensures SplitAll(head + [sep] + rest, sep) == [head] + SplitAll(rest, sep)
    ensures SplitAll(head, sep) == [head]
  {
    if head == [] {
      assert head + [sep] + rest == [sep] + rest;
      assert ([sep] + rest)[1..] == rest;
    } else {
      SplitPrefix(head[1..], rest, sep);
      assert (head + [sep] + rest)[1..] == head[1..] + [sep] + rest;
      assert [head[0]] + head[1..] == head;
    }
  }

  /** One more character before parts that were split. */
  function Before(ch: char, sep: char, parts: seq<string>): seq<string>
    requires parts != []
  {
    if ch == sep then [[]] + parts else [[ch] + parts[0]] + parts[1..]
  }

  lemma SplitFirst(ch: char, text: string, sep: char)
    ensures SplitAll([ch] + text, sep) == Before(ch, sep, SplitAll(text, sep))
  {
    assert ([ch] + text)[1..] == text;
  }

  lemma BeforeJoins(ch: char, sep: char, x: seq<string>, y: seq<string>)
    requires x != []
    ensures Before(ch, sep, x + y) == Before(ch, sep, x) + y
  {
    assert (x + y)[0] == x[0] && (x + y)[1..] == x[1..] + y;
    assert [[]] + (x + y) == ([[]] + x) + y;
  }

  /** Splitting a text with a separator in it splits both sides. */
  lemma {:induction false} SplitApart(a: string, b: string, sep: char) returns (whole: string)
    ensures whole == a + [sep] + b && SplitAll(whole, sep) == SplitAll(a, sep) + SplitAll(b, sep)
  {
    whole := a + [sep] + b;
    if a == [] {
      assert whole == [sep] + b;
      SplitFirst(sep, b, sep);
    } else {
      var rest := SplitApart(a[1..], b, sep);
      assert whole == [a[0]] + rest && a == [a[0]] + a[1..];
      SplitFirst(a[0], rest, sep);
      SplitFirst(a[0], a[1..], sep);
      BeforeJoins(a[0], sep, SplitAll(a[1..], sep), SplitAll(b, sep));
    }
  }

  lemma {:induction false} SplitJoin(parts: seq<string>, sep: char)
    requires parts != [] && forall i :: 0 <= i < |parts| ==> Lacks(parts[i], sep)
    ensures SplitAll(JoinAll(parts, sep), sep) == parts
  {
    if |parts| == 1 {
      SplitPrefix(parts[0], [], sep);
    } else {
      SplitJoin(parts[1..], sep);
      SplitPrefix(parts[0], JoinAll(parts[1..], sep), sep);
    }
  }

  // ---------------------------------------------------------------- queries

  /** A field's text before and after its first '='. */
  function SplitField(field: string): Option<(string, string)> {
    if field == [] then None
    else if field[0] == '=' then Some(([], field[1..]))
    else
      match SplitField(field[1..])
      case None => None
      case Some((key, value)) => Some(([field[0]] + key, value))
  }

  /** Fields without '=' or without a value are dropped. */
  function ReadFields(fields: seq<string>): seq<Pair> {
    if fields == [] then []
    else
      var rest := ReadFields(fields[1..]);
      match SplitField(fields[0])
      case None => rest
      case Some((key, value)) => if value == [] then rest else [(Unquote(key), Unquote(value))] + rest
  }

  /** parse_qs with its field limit; the pairs are in order. */
  function ParseQuery(query: string, maxFields: nat): Option<seq<Pair>> {
    if query == [] then Some([])
    else if |SplitAll(query, '&')| > maxFields then None
    else Some(ReadFields(SplitAll(query, '&')))
  }

  function Values(pairs: seq<Pair>, key: string): seq<string> {
    if pairs == [] then []
    else (if pairs[0].0 == key then [pairs[0].1] else []) + Values(pairs[1..], key)
  }

  ghost predicate Encodable(pairs: seq<Pair>) {
    forall i :: 0 <= i < |pairs| ==> AllBytes(pairs[i].0) && AllBytes(pairs[i].1) && pairs[i].1 != []
  }

  function Field(pair: Pair): string
    requires AllBytes(pair.0) && AllBytes(pair.1)
  {
    Quote(pair.0) + "=" + Quote(pair.1)
  }

  function Fields(pairs: seq<Pair>): seq<string>
    requires Encodable(pairs)
  {
    seq(|pairs|, i requires 0 <= i < |pairs| => Field(pairs[i]))
  }

  /** urlencode */
  function EncodeQuery(pairs: seq<Pair>): string
    requires Encodable(pairs)
  {
    if pairs == [] then [] else JoinAll(Fields(pairs), '&')
  }

  lemma {:induction false} SplitFieldJoin(key: string, value: string)
    requires Lacks(key, '=')
    ensures SplitField(key + "=" + value) == Some((key, value))
  {
    if key == [] {
      assert key + "=" + value == ['='] + value;
    } else {
      SplitFieldJoin(key[1..], value);
      assert (key + "=" + value)[1..] == key[1..] + "=" + value;
      assert [key[0]] + key[1..] == key;
    }
  }

  lemma ReadFirstField(pair: Pair, rest: seq<string>)
    requires AllBytes(pair.0) && AllBytes(pair.1) && pair.1 != []
    ensures ReadFields([Field(pair)] + rest) == [pair] + ReadFields(rest)
  {
    QuoteIsQuoted(pair.0);
    QuoteIsQuoted(pair.1);
    SplitFieldJoin(Quote(pair.0), Quote(pair.1));
    UnquoteQuote(pair.0);
    UnquoteQuote(pair.1);
    assert ([Field(pair)] + rest)[1..] == rest;
  }

  lemma FirstOfFields(pairs: seq<Pair>)
    requires Encodable(pairs) && pairs != []
    ensures Fields(pairs) == [Field(pairs[0])] + Fields(pairs[1..])
  {
  }

  lemma {:induction false} ReadFieldsOf(pairs: seq<Pair>)
    requires Encodable(pairs)
    ensures ReadFields(Fields(pairs)) == pairs
  {
    if pairs != [] {
      ReadFieldsOf(pairs[1..]);
      ReadFirstField(pairs[0], Fields(pairs[1..]));
      FirstOfFields(pairs);
      assert pairs == [pairs[0]] + pairs[1..];
    }
  }

  lemma FieldIsQuoted(pair: Pair)
    requires AllBytes(pair.0) && AllBytes(pair.1)
    ensures Field(pair) != [] && forall i :: 0 <= i < |Field(pair)| ==>
              IsQuoted(Field(pair)[i]) || Field(pair)[i] == '='
  {
    QuoteIsQuoted(pair.0);
    QuoteIsQuoted(pair.1);
  }

  /** Reading what was encoded gives the same pairs in the same order, or nothing when
      there are too many. */
  lemma ParseEncoded(pairs: seq<Pair>, maxFields: nat)
    requires Encodable(pairs)
    ensures ParseQuery(EncodeQuery(pairs), maxFields) == if |pairs| <= maxFields then Some(pairs) else None
  {
    if pairs != [] {
      forall i | 0 <= i < |pairs| ensures Lacks(Fields(pairs)[i], '&') {
        FieldIsQuoted(pairs[i]);
      }
      SplitJoin(Fields(pairs), '&');
      ReadFieldsOf(pairs);
      FieldIsQuoted(pairs[0]);
    }
  }

  predicate IsPrintable(ch: char) {
    33 <= ch as int < 127 && ch != '#'
  }

  ghost predicate Printable(text: string) {
    forall i :: 0 <= i < |text| ==> IsPrintable(text[i])
  }

  lemma {:induction false} JoinIsPrintable(parts: seq<string>)
    requires parts != [] && forall i :: 0 <= i < |parts| ==> Printable(parts[i])
    ensures Printable(JoinAll(parts, '&'))
  {
    if |parts| > 1 {
      JoinIsPrintable(parts[1..]);
    }
  }

  lemma EncodedIsPrintable(pairs: seq<Pair>)
    requires Encodable(pairs)
    ensures Printable(EncodeQuery(pairs))
  {
    if pairs != [] {
      forall i | 0 <= i < |pairs| ensures Printable(Fields(pairs)[i]) {
        FieldIsQuoted(pairs[i]);
      }
      JoinIsPrintable(Fields(pairs));
    }
  }

  // ---------------------------------------------------------------- spelled out

  /** The characters that are written as themselves. */
  ghost predicate Unreserved(ch: char) {
    || ch in "ABCDEFGHIJKLMNOPQRSTUVWXYZ" || ch in "abcdefghijklmnopqrstuvwxyz"
    || ch in "0123456789" || ch in "_.-~"
  }

  lemma UpperLetters(ch: char)
    ensures ch in "ABCDEFGHIJKLMNOPQRSTUVWXYZ" <==> 'A' <= ch <= 'Z'
  {
    var text := "ABCDEFGHIJKLMNOPQRSTUVWXYZ";
    assert forall i :: 0 <= i < 26 ==> text[i] as int == 'A' as int + i;
    assert 'A' <= ch <= 'Z' ==> text[ch as int - 'A' as int] == ch;
  }

  lemma LowerLetters(ch: char)
    ensures ch in "abcdefghijklmnopqrstuvwxyz" <==> 'a' <= ch <= 'z'
  {
    var text := "abcdefghijklmnopqrstuvwxyz";
    assert forall i :: 0 <= i < 26 ==> text[i] as int == 'a' as int + i;
    assert 'a' <= ch <= 'z' ==> text[ch as int - 'a' as int] == ch;
  }

  lemma DecimalDigits(ch: char)
    ensures ch in "0123456789" <==> '0' <= ch <= '9'
  {
    var text := "0123456789";
    assert forall i :: 0 <= i < 10 ==> text[i] as int == '0' as int + i;
    assert '0' <= ch <= '9' ==> text[ch as int - '0' as int] == ch;
  }

  lemma SafeSpelled(ch: char)
    ensures IsSafe(ch) <==> Unreserved(ch)
  {
    UpperLetters(ch);
    LowerLetters(ch);
    DecimalDigits(ch);
    assert ch in "_.-~" <==> ch == '_' || ch == '.' || ch == '-' || ch == '~' by {
      var text := "_.-~";
      assert text[0] == '_' && text[1] == '.' && text[2] == '-' && text[3] == '~';
    }
  }

  /** How one byte is written: as itself, as a plus, or by two upper-case digits. */
  lemma QuoteSpelled(ch: char)
    requires IsByte(ch)
    ensures Quote([ch]) ==
            if Unreserved(ch) then [ch]
            else if ch == ' ' then "+"
            else ['%', "0123456789ABCDEF"[ch as int / 16], "0123456789ABCDEF"[ch as int % 16]]
  {
    SafeSpelled(ch);
    assert Quote([ch]) == QuoteByte(ch) + [] == QuoteByte(ch);
    UpperDigit(ch as int / 16);
    UpperDigit(ch as int % 16);
  }

  lemma UpperDigit(n: nat)
    requires n < 16
    ensures UpperHex(n) == "0123456789ABCDEF"[n]
  {
  }

  /** Writing goes byte by byte. */
  lemma {:induction false} QuoteJoins(a: string, b: string)
    requires AllBytes(a) && AllBytes(b)
    ensures AllBytes(a + b) && Quote(a + b) == Quote(a) + Quote(b)
  {
    if a == [] {
      assert a + b == b && Quote(a) + Quote(b) == Quote(b);
    } else {
      QuoteJoins(a[1..], b);
      assert (a + b)[1..] == a[1..] + b;
      assert QuoteByte(a[0]) + (Quote(a[1..]) + Quote(b)) == (QuoteByte(a[0]) + Quote(a[1..])) + Quote(b);
    }
  }

  /** How text is read: an escape of two digits in either case, a plus as a space, and
      everything else, a broken escape included, as itself. */
  lemma UnquoteSpelled(high: nat, low: nat, rest: string)
    requires high < 16 && low < 16
    ensures var byte := (16 * high + low) as char;
            && Unquote(['%', "0123456789ABCDEF"[high], "0123456789ABCDEF"[low]] + rest) == [byte] + Unquote(rest)
            && Unquote(['%', "0123456789abcdef"[high], "0123456789abcdef"[low]] + rest) == [byte] + Unquote(rest)
    ensures Unquote("+" + rest) == " " + Unquote(rest)
  {
    HexDigits(high);
    HexDigits(low);
    var upper := ['%', "0123456789ABCDEF"[high], "0123456789ABCDEF"[low]];
    var lower := ['%', "0123456789abcdef"[high], "0123456789abcdef"[low]];
    assert (upper + rest)[3..] == rest && (lower + rest)[3..] == rest && ("+" + rest)[1..] == rest;
  }

  lemma HexDigits(n: nat)
    requires n < 16
    ensures IsHex("0123456789ABCDEF"[n]) && HexValue("0123456789ABCDEF"[n]) == n
    ensures IsHex("0123456789abcdef"[n]) && HexValue("0123456789abcdef"[n]) == n
  {
  }

  lemma UnquotePlain(ch: char, rest: string)
    requires ch != '+' && (ch == '%' ==> |rest| < 2 || !IsHex(rest[0]) || !IsHex(rest[1]))
    ensures Unquote([ch] + rest) == [ch] + Unquote(rest)
  {
    assert ([ch] + rest)[1..] == rest;
  }

  /** A field without an equals sign, or with nothing after the first one, is dropped. */
  lemma {:induction false} UnsignedField(field: string)
    requires Lacks(field, '=')
    ensures SplitField(field) == None
  {
    if field != [] {
      UnsignedField(field[1..]);
    }
  }

  lemma DroppedField(field: string, rest: seq<string>)
    requires Lacks(field, '=') || exists key :: Lacks(key, '=') && field == key + "="
    ensures ReadFields([field] + rest) == ReadFields(rest)
  {
    assert ([field] + rest)[1..] == rest;
    if Lacks(field, '=') {
      UnsignedField(field);
    } else {
      var key :| Lacks(key, '=') && field == key + "=";
      assert field == key + "=" + [];
      SplitFieldJoin(key, []);
    }
  }

  /** The values of a key are those of its pairs, in order. */
  lemma ValuesSpelled(pair: Pair, rest: seq<Pair>, key: string)
    ensures Values([pair] + rest, key) == (if pair.0 == key then [pair.1] + Values(rest, key) else Values(rest, key))
    ensures Values([], key) == []
  {
    assert ([pair] + rest)[1..] == rest;
    assert [] + Values(rest, key) == Values(rest, key);
  }
}
