/** The Gedis server's `ResponseEncoder`, against a reader of the Redis serialization protocol
    (RESP2: simple strings, errors, integers, bulk strings, arrays). */
module Resp {
  import opened Wrappers
  import opened Decimal

  // ---------------------------------------------------------------------------------------
  // Text as UTF-8
  // ---------------------------------------------------------------------------------------

  /** The bytes of one character, `chr(c).encode()`. */
  function Utf8Char(c: char): (b: seq<byte>)
    ensures 1 <= |b| <= 4
    ensures |b| == 1 <==> (c as int) < 128
    ensures |b| == 1 ==> b[0] == c as int
    ensures |b| > 1 ==> forall k :: 0 <= k < |b| ==> b[k] >= 128
  {
    var k := c as int;
    if k < 0x80 then [k]
    else if k < 0x800 then [0xC0 + k / 64, 0x80 + k % 64]
    else if k < 0x10000 then [0xE0 + k / 4096, 0x80 + (k / 64) % 64, 0x80 + k % 64]
    else [0xF0 + k / 262144, 0x80 + (k / 4096) % 64, 0x80 + (k / 64) % 64, 0x80 + k % 64]
  }

  function Utf8(s: string): seq<byte> {
    if s == "" then [] else Utf8Char(s[0]) + Utf8(s[1..])
  }

  predicate IsAscii(s: string) { forall c :: c in s ==> (c as int) < 128 }

  lemma {:induction false} Utf8Concat(s: string, t: string)
    ensures Utf8(s + t) == Utf8(s) + Utf8(t)
  {
    if s == "" {
      assert s + t == t;
    } else {
      assert (s + t)[1..] == s[1..] + t;
      Utf8Concat(s[1..], t);
    }
  }

  /** A text takes as many bytes as it has characters exactly when it is ASCII. */
  lemma {:induction false} Utf8Length(s: string)
    ensures |Utf8(s)| >= |s|
    ensures |Utf8(s)| == |s| <==> IsAscii(s)
  {
    if s != "" {
      Utf8Length(s[1..]);
      assert s[0] in s && forall c :: c in s[1..] ==> c in s;
      if IsAscii(s[1..]) && (s[0] as int) < 128 {
        forall c | c in s ensures (c as int) < 128 {
          assert c == s[0] || c in s[1..];
        }
      }
    }
  }

  lemma {:induction false} Utf8OfAscii(s: string)
    requires IsAscii(s)
    ensures Utf8(s) == Ascii(s)
  {
    if s != "" {
      assert s[0] in s && forall c :: c in s[1..] ==> c in s;
      Utf8OfAscii(s[1..]);
    }
  }

  /** A byte 10 only ever stands for a newline. */
  lemma {:induction false} Utf8Newline(s: string)
    requires '\n' !in s
    ensures 10 !in Utf8(s)
  {
    if s != "" {
      assert s[0] in s && forall c :: c in s[1..] ==> c in s;
      Utf8Newline(s[1..]);
      assert 10 !in Utf8Char(s[0]);
    }
  }

  /** The first character of a UTF-8 text and what follows it (section 3 of RFC 3629). */
  function FirstChar(s: seq<byte>): Option<(int, seq<byte>)> {
    if s == [] then None
    else
      var b: int := s[0];
      if b < 0x80 then Some((b, s[1..]))
      else if 0xC0 <= b < 0xE0 && |s| >= 2 then Some(((b - 0xC0) * 64 + Low(s[1]), s[2..]))
      else if 0xE0 <= b < 0xF0 && |s| >= 3 then Some(((b - 0xE0) * 4096 + Low(s[1]) * 64 + Low(s[2]), s[3..]))
      else if 0xF0 <= b < 0xF8 && |s| >= 4 then
        Some(((b - 0xF0) * 262144 + Low(s[1]) * 4096 + Low(s[2]) * 64 + Low(s[3]), s[4..]))
      else None
  }

  /** The six bits of a continuation byte. */
  function Low(b: int): int { b - 0x80 }

  /** Every character is read back from its bytes. */
  lemma Utf8Decodes(c: char, rest: seq<byte>)
    ensures FirstChar(Utf8Char(c) + rest) == Some((c as int, rest))
  {
    var b, k := Utf8Char(c), c as int;
    assert (b + rest)[|b|..] == rest;
    assert k == (k / 64) * 64 + k % 64;
    assert k / 64 == (k / 4096) * 64 + (k / 64) % 64;
    assert k / 4096 == (k / 262144) * 64 + (k / 4096) % 64;
  }

  /** So different texts have different bytes. */
  lemma {:induction false} Utf8Injective(s: string, t: string)
    requires Utf8(s) == Utf8(t)
    ensures s == t
  {
    if s != "" { Utf8Decodes(s[0], Utf8(s[1..])); }
    if t != "" { Utf8Decodes(t[0], Utf8(t[1..])); }
    if s != "" && t != "" {
      Utf8Injective(s[1..], t[1..]);
      assert s == [s[0]] + s[1..] && t == [t[0]] + t[1..];
    }
  }

  // ---------------------------------------------------------------------------------------
  // The encoder
  // ---------------------------------------------------------------------------------------

  /** The values a server method returns; `Other` is anything else, by its `repr`. */
  datatype Value =
    | Null
    | Int(i: int)
    | Bool(b: bool)
    | Str(s: string)
    | Bytes(raw: seq<byte>)
    | List(items: seq<Value>)
    | Other(repr: string)

  const CRLF: seq<byte> := [13, 10]

  /** A leading "*REDIS*" item is not sent. */
  function Sent(items: seq<Value>): seq<Value> {
    if items != [] && items[0] == Str("*REDIS*") then items[1..] else items
  }

  /** `_bulk`: the length written is the number of characters. */
  function BulkText(s: string): seq<byte> {
    Utf8("$" + Digits(|s|) + "\r\n" + s + "\r\n")
  }

  function Encoded(v: Value): seq<byte>
    decreases v
  {
    match v
    case Null => Utf8("$-1\r\n")
    case Int(i) => Utf8(":" + Show(i) + "\r\n")
    case Bool(b) => Utf8(":" + (if b then "True" else "False") + "\r\n")
    case Str(s) => if '\n' in s then BulkText(s) else Utf8("+" + s + "\r\n")
    case Bytes(raw) => Utf8("$" + Digits(|raw|) + "\r\n") + raw + CRLF
    case List(items) => Utf8("*" + Digits(|Sent(items)|) + "\r\n") + EncodedItems(Sent(items))
    case Other(repr) => BulkText(repr)
  }

  /** Values encoded one after the other. */
  function EncodedItems(items: seq<Value>): seq<byte>
    decreases items
  {
    if items == [] then [] else Encoded(items[0]) + EncodedItems(items[1..])
  }

  class ResponseEncoder {
    var sent: seq<byte>     // what the socket has been given
    var buffer: seq<byte>

    constructor ()
      ensures sent == [] && buffer == []
    {
      sent, buffer := [], [];
    }

    /** `_write_buffer` of text. */
    method WriteText(data: string)
      modifies this`buffer
      ensures buffer == old(buffer) + Utf8(data)
    {
      buffer := buffer + Utf8(data);
    }

    /** `_send`: hands the buffer to the socket and starts a new one. */
    method Send()
      modifies this
      ensures sent == old(sent) + old(buffer) && buffer == []
    {
      sent := sent + buffer;
      buffer := [];
    }

    /** `_bulk`. */
    method Bulk(value: string)
      modifies this`buffer
      ensures buffer == old(buffer) + BulkText(value)
    {
      WriteText("$" + Digits(|value|) + "\r\n" + value + "\r\n");
    }

    /** `_bulkbytes`. */
    method BulkBytes(value: seq<byte>)
      modifies this`buffer
      ensures buffer == old(buffer) + Encoded(Bytes(value))
    {
      buffer := buffer + (Utf8("$" + Digits(|value|) + "\r\n") + value + CRLF);
    }

    /** `_array`: every item flushes, so the header goes out with the first of them. */
    method Array(items: seq<Value>)
      modifies this
      ensures sent + buffer == old(sent) + old(buffer) + Utf8("*" + Digits(|items|) + "\r\n") + EncodedItems(items)
      decreases items, 0
    {
      WriteText("*" + Digits(|items|) + "\r\n");
      ghost var start := sent + buffer;
      assert start == old(sent) + old(buffer) + Utf8("*" + Digits(|items|) + "\r\n");
      for k := 0 to |items|
        invariant sent + buffer + EncodedItems(items[k..]) == start + EncodedItems(items)
      {
        EncodedNext(items, k, sent + buffer);
        Encode(items[k]);
        assert sent + buffer == sent;
      }
    }

    /** The branches of `encode` that write one reply into the buffer. */
    method WriteScalar(value: Value)
      requires !value.List?
      modifies this`buffer
      ensures buffer == old(buffer) + Encoded(value)
    {
      match value
      case Null => WriteText("$-1\r\n");
      case Int(i) => WriteText(":" + Show(i) + "\r\n");
      case Bool(b) => WriteText(":" + (if b then "True" else "False") + "\r\n");
      case Str(s) =>
        if '\n' in s {
          Bulk(s);
        } else {
          WriteText("+" + s + "\r\n");
        }
      case Bytes(raw) => BulkBytes(raw);
      case Other(repr) => Bulk(repr);
    }

    /** The list branch of `encode`: a leading marker is dropped. */
    method WriteList(items: seq<Value>)
      modifies this
      ensures sent + buffer == old(sent) + old(buffer) + Encoded(List(items))
      decreases items, 1
    {
      var rest := items;
      if items != [] && items[0] == Str("*REDIS*") {
        rest := items[1..];
      }
      ghost var header := Utf8("*" + Digits(|rest|) + "\r\n");
      assert Encoded(List(items)) == header + EncodedItems(rest);
      ghost var before := old(sent) + old(buffer);
      assert before + (header + EncodedItems(rest)) == before + header + EncodedItems(rest);
      Array(rest);
    }

    /** `encode`: afterwards the socket has the value's bytes and the buffer is empty. */
    method Encode(value: Value)
      modifies this
      ensures sent == old(sent) + old(buffer) + Encoded(value)
      ensures buffer == []
      decreases value, 2
    {
      if value.List? {
        WriteList(value.items);
      } else {
        WriteScalar(value);
      }
      Send();
    }

    /** A connection's answers: one `encode` call after the other. */
    method EncodeAll(values: seq<Value>)
      requires buffer == []
      modifies this
      ensures sent == old(sent) + EncodedItems(values)
      ensures buffer == []
    {
      ghost var total := sent + EncodedItems(values);
      for k := 0 to |values|
        invariant sent + EncodedItems(values[k..]) == total && buffer == []
      {
        EncodeOneOf(values, k, total);
      }
    }

    method EncodeOneOf(values: seq<Value>, k: nat, ghost total: seq<byte>)
      requires k < |values| && buffer == [] && sent + EncodedItems(values[k..]) == total
      modifies this
      ensures buffer == [] && sent + EncodedItems(values[k + 1..]) == total
    {
      ghost var before, rest := sent, EncodedItems(values[k + 1..]);
      EncodedNext(values, k, sent);
      assert before + buffer == before;
      Encode(values[k]);
      assert sent + rest == total;
    }
  }

  lemma EncodedNext(items: seq<Value>, k: nat, before: seq<byte>)
    requires k < |items|
    ensures before + EncodedItems(items[k..]) == before + Encoded(items[k]) + EncodedItems(items[k + 1..])
  {
    assert items[k..][0] == items[k] && items[k..][1..] == items[k + 1..];
  }

  // ---------------------------------------------------------------------------------------
  // The reader
  // ---------------------------------------------------------------------------------------

  /** What a RESP2 client sees. */
  datatype Reply =
    | Nil
    | Integer(i: int)
    | Simple(text: seq<byte>)
    | Failed(text: seq<byte>)
    | Blob(data: seq<byte>)
    | Items(replies: seq<Reply>)

  /** A line up to the first CRLF, and what follows it. */
  function ReadLine(s: seq<byte>): (r: Option<(seq<byte>, seq<byte>)>)
    ensures r.Some? ==> |r.value.1| + 2 <= |s|
  {
    if |s| < 2 then None
    else if s[0] == 13 && s[1] == 10 then Some(([], s[2..]))
    else
      var r := ReadLine(s[1..]);
      if r.None? then None else Some(([s[0]] + r.value.0, r.value.1))
  }

  function ReadNumber(line: seq<byte>): Option<int> {
    if IsDigits(line) then Some(Number(line))
    else if line != [] && line[0] == 45 && IsDigits(line[1..]) then (var n: int := Number(line[1..]); Some(-n))
    else None
  }

  function ReadReply(s: seq<byte>): (r: Option<(Reply, seq<byte>)>)
    ensures r.Some? ==> |r.value.1| < |s|
    decreases |s|, 0
  {
    if s == [] || ReadLine(s[1..]).None? then None
    else
      var (line, rest) := ReadLine(s[1..]).value;
      if s[0] == '+' as int then Some((Simple(line), rest))
      else if s[0] == '-' as int then Some((Failed(line), rest))
      else
        var n := ReadNumber(line);
        if n.None? then None
        else if s[0] == ':' as int then Some((Integer(n.value), rest))
        else if s[0] == '$' as int then
          if n.value == -1 then Some((Nil, rest))
          else if 0 <= n.value && n.value + 2 <= |rest| && rest[n.value..n.value + 2] == CRLF then
            Some((Blob(rest[..n.value]), rest[n.value + 2..]))
          else None
        else if s[0] == '*' as int && n.value >= 0 then
          var items := ReadItems(rest, n.value);
          if items.None? then None else Some((Items(items.value.0), items.value.1))
        else if s[0] == '*' as int && n.value == -1 then Some((Nil, rest))
        else None
  }

  function ReadItems(s: seq<byte>, n: nat): (r: Option<(seq<Reply>, seq<byte>)>)
    ensures r.Some? ==> |r.value.1| <= |s|
    decreases |s|, 1
  {
    if n == 0 then Some(([], s))
    else
      var first := ReadReply(s);
      if first.None? then None
      else
        var more := ReadItems(first.value.1, n - 1);
        if more.None? then None else Some(([first.value.0] + more.value.0, more.value.1))
  }

  /** All replies of a byte stream that ends with a reply. */
  function ReadAll(s: seq<byte>): Option<seq<Reply>>
    decreases |s|
  {
    if s == [] then Some([])
    else
      var first := ReadReply(s);
      if first.None? then None
      else
        var more := ReadAll(first.value.1);
        if more.None? then None else Some([first.value.0] + more.value)
  }

  // ---------------------------------------------------------------------------------------
  // Theorems
  // ---------------------------------------------------------------------------------------

  /** The reply a value should arrive as. */
  function Meaning(v: Value): Reply
    decreases v
  {
    match v
    case Null => Nil
    case Int(i) => Integer(i)
    case Bool(b) => Integer(if b then 1 else 0)
    case Str(s) => if '\n' in s then Blob(Utf8(s)) else Simple(Utf8(s))
    case Bytes(raw) => Blob(raw)
    case List(items) =>
      Items(Meanings(if items != [] && items[0] == Str("*REDIS*") then items[1..] else items))
    case Other(repr) => Blob(Utf8(repr))
  }

  function Meanings(items: seq<Value>): seq<Reply>
    decreases items
  {
    if items == [] then [] else [Meaning(items[0])] + Meanings(items[1..])
  }

  /** The values that arrive as they should: no booleans, and ASCII only where a length counts
      characters. */
  predicate Faithful(v: Value)
    decreases v
  {
    match v
    case Bool(_) => false
    case Str(s) => '\n' in s ==> IsAscii(s)
    case Other(repr) => IsAscii(repr)
    case List(items) =>
      forall k :: 0 <= k < |items| && (k > 0 || items[0] != Str("*REDIS*")) ==> Faithful(items[k])
    case _ => true
  }

  predicate AllFaithful(items: seq<Value>)
    decreases items
  {
    items != [] ==> Faithful(items[0]) && AllFaithful(items[1..])
  }

  lemma {:induction false} ReadLineTo(line: seq<byte>, rest: seq<byte>)
    requires 10 !in line
    ensures ReadLine(line + CRLF + rest) == Some((line, rest))
  {
    var s := line + CRLF + rest;
    if line == [] {
      assert s[2..] == rest;
    } else {
      assert line[0] in line && forall b :: b in line[1..] ==> b in line;
      ReadLineTo(line[1..], rest);
      assert s[1..] == line[1..] + CRLF + rest;
      assert s[1] == (line[1..] + CRLF)[0];
      assert line == [line[0]] + line[1..];
      if |line| > 1 { assert s[1] in line; }
    }
  }

  /** A header line: a type character, a text, CRLF. */
  lemma HeaderBytes(kind: char, text: string)
    requires (kind as int) < 128
    ensures Utf8([kind] + text + "\r\n") == [kind as int] + Utf8(text) + CRLF
  {
    Utf8Concat([kind] + text, "\r\n");
    Utf8Concat([kind], text);
    CrlfBytes();
    assert Utf8([kind]) == [kind as int] by {
      assert [kind][1..] == "";
    }
  }

  lemma CrlfBytes()
    ensures Utf8("\r\n") == CRLF
  {
    assert "\r\n"[1..] == "\n" && "\n"[1..] == "";
  }

  /** The reader sees the type character and the line. */
  lemma ReadHeader(kind: char, text: string, rest: seq<byte>)
    requires (kind as int) < 128 && '\n' !in text
    ensures var s := Utf8([kind] + text + "\r\n") + rest;
      s != [] && s[0] == kind as int && ReadLine(s[1..]) == Some((Utf8(text), rest))
  {
    var s := Utf8([kind] + text + "\r\n") + rest;
    HeaderBytes(kind, text);
    Utf8Newline(text);
    ReadLineTo(Utf8(text), rest);
    assert s[1..] == Utf8(text) + CRLF + rest;
  }

  lemma DigitsLine(n: nat)
    ensures '\n' !in Digits(n)
    ensures ReadNumber(Utf8(Digits(n))) == Some(n)
  {
    Utf8OfAscii(Digits(n));
    NumberOfDigits(n);
  }

  lemma ShowLine(i: int)
    ensures '\n' !in Show(i)
    ensures ReadNumber(Utf8(Show(i))) == Some(i)
  {
    DigitsLine(if i < 0 then -i else i);
    if i < 0 {
      Utf8Concat("-", Digits(-i));
      assert Utf8("-") == [45] by { assert "-"[1..] == ""; }
      assert Utf8(Show(i))[1..] == Utf8(Digits(-i));
    }
  }

  lemma ReadBlob(data: seq<byte>, rest: seq<byte>)
    ensures ReadReply(Utf8("$" + Digits(|data|) + "\r\n") + data + CRLF + rest) == Some((Blob(data), rest))
  {
    var header, tail := Utf8("$" + Digits(|data|) + "\r\n"), data + CRLF + rest;
    ReadBlobHeader(|data|, tail);
    assert header + data + CRLF + rest == header + tail;
    assert tail[|data|..|data| + 2] == CRLF;
    assert tail[..|data|] == data && tail[|data| + 2..] == rest;
  }

  lemma ReadBlobHeader(n: nat, tail: seq<byte>)
    requires n + 2 <= |tail| && tail[n..n + 2] == CRLF
    ensures ReadReply(Utf8("$" + Digits(n) + "\r\n") + tail) == Some((Blob(tail[..n]), tail[n + 2..]))
  {
    DigitsLine(n);
    ReadHeader('$', Digits(n), tail);
  }

  /** How a bulk text reads: in full when it is ASCII, otherwise not as it was. */
  lemma ReadBulkText(s: string, rest: seq<byte>)
    ensures IsAscii(s) ==> ReadReply(BulkText(s) + rest) == Some((Blob(Utf8(s)), rest))
    ensures !IsAscii(s) && ReadReply(BulkText(s) + rest).Some? ==>
              ReadReply(BulkText(s) + rest).value.0 != Blob(Utf8(s))
  {
    var header := "$" + Digits(|s|) + "\r\n";
    Utf8Concat(header + s, "\r\n");
    Utf8Concat(header, s);
    CrlfBytes();
    Utf8Length(s);
    var bytes := BulkText(s) + rest;
    if IsAscii(s) {
      ReadBlob(Utf8(s), rest);
      assert bytes == Utf8(header) + Utf8(s) + CRLF + rest;
    } else {
      var tail := Utf8(s) + CRLF + rest;
      assert bytes == Utf8(header) + tail;
      DigitsLine(|s|);
      ReadHeader('$', Digits(|s|), tail);
      if ReadReply(bytes).Some? { assert |tail[..|s|]| == |s| < |Utf8(s)|; }
    }
  }

  lemma ReadBool(b: bool, rest: seq<byte>)
    ensures ReadReply(Encoded(Bool(b)) + rest).None?
  {
    var text := if b then "True" else "False";
    ReadHeader(':', text, rest);
    Utf8OfAscii(text);
    assert Utf8(text)[0] == (if b then 84 else 70);
  }

  /** A value's bytes, followed by anything, read as the value exactly when it is faithful; otherwise
      as nothing or as another reply. */
  lemma {:induction false} ReadEncoded(v: Value, rest: seq<byte>)
    ensures Faithful(v) ==> ReadReply(Encoded(v) + rest) == Some((Meaning(v), rest))
    ensures !Faithful(v) && ReadReply(Encoded(v) + rest).Some? ==> ReadReply(Encoded(v) + rest).value.0 != Meaning(v)
    decreases v
  {
    match v
    case Null => ReadNull(rest);
    case Int(i) =>
      ShowLine(i);
      ReadHeader(':', Show(i), rest);
    case Bool(b) => ReadBool(b, rest);
    case Str(s) =>
      if '\n' in s {
        ReadBulkText(s, rest);
      } else {
        ReadHeader('+', s, rest);
      }
    case Bytes(raw) => ReadBlob(raw, rest);
    case Other(repr) => ReadBulkText(repr, rest);
    case List(items) =>
      FaithfulItems(items);
      ReadEncodedItems(Sent(items), rest);
      ReadArray(Sent(items), rest);
      assert Encoded(v) == Utf8("*" + Digits(|Sent(items)|) + "\r\n") + EncodedItems(Sent(items));
  }

  /** A list is faithful when the items sent are. */
  lemma FaithfulItems(items: seq<Value>)
    ensures Faithful(List(items)) <==> AllFaithful(Sent(items))
  {
    AllFaithfulAt(Sent(items));
    var sent, first := Sent(items), if items != [] && items[0] == Str("*REDIS*") then 1 else 0;
    assert forall k :: 0 <= k < |sent| ==> sent[k] == items[k + first];
    assert forall k :: first <= k < |items| ==> items[k] == sent[k - first];
  }

  lemma {:induction false} AllFaithfulAt(items: seq<Value>)
    ensures AllFaithful(items) <==> forall k :: 0 <= k < |items| ==> Faithful(items[k])
  {
    if items != [] {
      AllFaithfulAt(items[1..]);
      assert forall k :: 0 <= k < |items| - 1 ==> items[1..][k] == items[k + 1];
      assert forall k :: 1 <= k < |items| ==> items[k] == items[1..][k - 1];
    }
  }

  lemma ReadNull(rest: seq<byte>)
    ensures ReadReply(Encoded(Null) + rest) == Some((Nil, rest))
  {
    assert "$" + "-1" + "\r\n" == "$-1\r\n";
    assert Show(-1) == "-1";
    ShowLine(-1);
    ReadHeader('$', "-1", rest);
  }

  /** An array reads as its items read. */
  lemma ReadArray(items: seq<Value>, rest: seq<byte>)
    ensures var r := ReadItems(EncodedItems(items) + rest, |items|);
      ReadReply(Utf8("*" + Digits(|items|) + "\r\n") + EncodedItems(items) + rest)
        == if r.None? then None else Some((Items(r.value.0), r.value.1))
  {
    var header, tail := Utf8("*" + Digits(|items|) + "\r\n"), EncodedItems(items) + rest;
    ReadArrayHeader(|items|, tail);
    assert header + EncodedItems(items) + rest == header + tail;
  }

  lemma ReadArrayHeader(n: nat, tail: seq<byte>)
    ensures var r := ReadItems(tail, n);
      ReadReply(Utf8("*" + Digits(n) + "\r\n") + tail) == if r.None? then None else Some((Items(r.value.0), r.value.1))
  {
    DigitsLine(n);
    ReadHeader('*', Digits(n), tail);
  }

  lemma {:induction false} ReadEncodedItems(items: seq<Value>, rest: seq<byte>)
    ensures AllFaithful(items) ==> ReadItems(EncodedItems(items) + rest, |items|) == Some((Meanings(items), rest))
    ensures !AllFaithful(items) && ReadItems(EncodedItems(items) + rest, |items|).Some? ==>
              ReadItems(EncodedItems(items) + rest, |items|).value.0 != Meanings(items)
    decreases items
  {
    if items == [] {
      assert EncodedItems(items) + rest == rest;
    } else {
      var more := EncodedItems(items[1..]) + rest;
      assert EncodedItems(items) + rest == Encoded(items[0]) + more;
      ReadEncoded(items[0], more);
      ReadEncodedItems(items[1..], rest);
      ItemsFollow(EncodedItems(items) + rest, items, more, rest);
    }
  }

  /** When the first item and the others read as they should, so does the list. */
  lemma ItemsFollow(s: seq<byte>, items: seq<Value>, more: seq<byte>, rest: seq<byte>)
    requires items != []
    requires Faithful(items[0]) ==> ReadReply(s) == Some((Meaning(items[0]), more))
    requires !Faithful(items[0]) && ReadReply(s).Some? ==> ReadReply(s).value.0 != Meaning(items[0])
    requires AllFaithful(items[1..]) ==> ReadItems(more, |items| - 1) == Some((Meanings(items[1..]), rest))
    requires !AllFaithful(items[1..]) && ReadItems(more, |items| - 1).Some? ==>
               ReadItems(more, |items| - 1).value.0 != Meanings(items[1..])
    ensures AllFaithful(items) ==> ReadItems(s, |items|) == Some((Meanings(items), rest))
    ensures !AllFaithful(items) && ReadItems(s, |items|).Some? ==> ReadItems(s, |items|).value.0 != Meanings(items)
  {
    FirstItem(s, |items|, Meaning(items[0]), Meanings(items[1..]));
  }

  /** How reading several items goes on from reading the first, compared with what is expected. */
  lemma FirstItem(s: seq<byte>, n: nat, first: Reply, others: seq<Reply>)
    requires n > 0
    ensures var r, all := ReadReply(s), ReadItems(s, n);
      && (r.None? ==> all.None?)
      && (r.Some? && r.value.0 != first && all.Some? ==> all.value.0 != [first] + others)
      && (r.Some? && r.value.0 == first ==>
            var more := ReadItems(r.value.1, n - 1);
            (more.None? ==> all.None?) &&
            (more.Some? ==> all.Some? && all.value.1 == more.value.1) &&
            (more.Some? ==> (all.value.0 == [first] + others <==> more.value.0 == others)))
  {
    var r, all := ReadReply(s), ReadItems(s, n);
    if r.Some? && all.Some? {
      var more := ReadItems(r.value.1, n - 1);
      assert all.value.0 == [r.value.0] + more.value.0;
      assert all.value.0[0] == r.value.0 && all.value.0[1..] == more.value.0;
      assert ([first] + others)[0] == first && ([first] + others)[1..] == others;
    }
  }

  lemma {:induction false} MeaningAt(items: seq<Value>)
    ensures |Meanings(items)| == |items|
    ensures forall k :: 0 <= k < |items| ==> Meanings(items)[k] == Meaning(items[k])
  {
    if items != [] { MeaningAt(items[1..]); }
  }

  /** A list that does not begin with the marker arrives with every item in its place. */
  lemma ListArrives(items: seq<Value>, rest: seq<byte>)
    requires items == [] || items[0] != Str("*REDIS*")
    requires forall k :: 0 <= k < |items| ==> Faithful(items[k])
    ensures var r := ReadReply(Encoded(List(items)) + rest);
      && r.Some? && r.value.1 == rest && r.value.0.Items? && |r.value.0.replies| == |items|
      && forall k :: 0 <= k < |items| ==> r.value.0.replies[k] == Meaning(items[k])
  {
    ReadEncoded(List(items), rest);
    MeaningAt(items);
  }

  /** A list that begins with the marker arrives as its other items, each in its place. */
  lemma MarkedListArrives(items: seq<Value>, rest: seq<byte>)
    requires forall k :: 0 <= k < |items| ==> Faithful(items[k])
    ensures var r := ReadReply(Encoded(List([Str("*REDIS*")] + items)) + rest);
      && r.Some? && r.value.1 == rest && r.value.0.Items? && |r.value.0.replies| == |items|
      && forall k :: 0 <= k < |items| ==> r.value.0.replies[k] == Meaning(items[k])
  {
    var marked := [Str("*REDIS*")] + items;
    assert marked[1..] == items;
    ReadEncoded(List(marked), rest);
    MeaningAt(items);
  }

  /** Whatever sequence of values is sent, a RESP2 reader gets exactly their meanings when, and only
      when, every one of them is faithful. */
  lemma StreamRoundTrip(values: seq<Value>)
    ensures ReadAll(EncodedItems(values)) == Some(Meanings(values)) <==> forall v :: v in values ==> Faithful(v)
  {
    ReadStream(values);
    AllFaithfulMeans(values);
  }

  lemma {:induction false} AllFaithfulMeans(values: seq<Value>)
    ensures AllFaithful(values) <==> forall v :: v in values ==> Faithful(v)
  {
    if values != [] {
      AllFaithfulMeans(values[1..]);
      if AllFaithful(values) {
        forall v | v in values ensures Faithful(v) {
          assert v == values[0] || v in values[1..];
        }
      } else if Faithful(values[0]) {
        var v :| v in values[1..] && !Faithful(v);
        assert v in values;
      } else {
        assert values[0] in values;
      }
    }
  }

  lemma {:induction false} ReadStream(values: seq<Value>)
    ensures ReadAll(EncodedItems(values)) == Some(Meanings(values)) <==> AllFaithful(values)
  {
    if values != [] {
      var v, bytes, more := values[0], EncodedItems(values), EncodedItems(values[1..]);
      ReadEncoded(v, more);
      ReadStream(values[1..]);
      EncodedNotEmpty(v);
      assert bytes == Encoded(v) + more;
      assert Meanings(values) == [Meaning(v)] + Meanings(values[1..]);
      var first, all := ReadReply(bytes), ReadAll(bytes);
      if Faithful(v) {
        assert first == Some((Meaning(v), more));
        FirstThenOthers(Meaning(v), ReadAll(more), Meanings(values[1..]));
      } else if all.Some? {
        assert all.value[0] == first.value.0;
      }
    }
  }

  lemma FirstThenOthers(first: Reply, others: Option<seq<Reply>>, expected: seq<Reply>)
    ensures var all := if others.None? then None else Some([first] + others.value);
      all == Some([first] + expected) <==> others == Some(expected)
  {
    if others.Some? {
      assert ([first] + others.value)[1..] == others.value && ([first] + expected)[1..] == expected;
    }
  }

  lemma EncodedNotEmpty(v: Value)
    ensures Encoded(v) != []
  {
    match v
    case Null => HeaderBytes('$', "-1"); assert "$" + "-1" + "\r\n" == "$-1\r\n";
    case Str(s) => if '\n' in s { Utf8Length("$" + Digits(|s|) + "\r\n" + s + "\r\n"); } else { HeaderBytes('+', s); }
    case Other(s) => Utf8Length("$" + Digits(|s|) + "\r\n" + s + "\r\n");
    case Int(i) => HeaderBytes(':', Show(i));
    case Bool(b) => HeaderBytes(':', if b then "True" else "False");
    case Bytes(raw) => assert |CRLF| == 2;
    case List(items) => HeaderBytes('*', Digits(|Sent(items)|));
  }
}
