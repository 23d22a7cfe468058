/**
  RLP: byte strings and lists to bytes and back.  The printer and the parser undo each other:
  what is encoded decodes to itself whatever follows it, and only canonical bytes decode.
  Lengths are unbounded integers; they are below 2^64 wherever a bound is needed.
*/
module Rlp {
  import opened Wrappers

  datatype Item = Str(bytes: Bytes) | List(items: seq<Item>)

  datatype RlpError =
    | ExtraZeros | OutOfBounds | InvalidPrefix | NotEnoughBytes
    | StringTooShort | ListTooShort | TotalTooLarge | RemainderNotZero

  datatype Decoded = Decoded(data: Item, remainder: Bytes)

  /** A value, or the error that was thrown. */
  datatype Outcome<+T> = Ok(value: T) | Err(error: RlpError)
  {
    predicate IsFailure() {
      Err?
    }

    function PropagateFailure<U>(): Outcome<U>
      requires Err?
    {
      Err(error)
    }

    function Extract(): T
      requires Ok?
    {
      value
    }
  }

  const LENGTH_LIMIT: nat := 0x1_0000_0000_0000_0000

  // ----- numbers as bytes, most significant first and without leading zeros -----

  function BigEndian(n: nat): (b: Bytes)
    ensures b != [] && (n > 0 ==> b[0] != 0)
  {
    if n < 256 then [n as Byte] else BigEndian(n / 256) + [(n % 256) as Byte]
  }

  function FromBigEndian(b: Bytes): nat {
    if b == [] then 0 else 256 * FromBigEndian(b[..|b|-1]) + b[|b|-1] as nat
  }

  lemma {:induction false} NumberRoundTrip(n: nat)
    ensures FromBigEndian(BigEndian(n)) == n
  {
    if n >= 256 {
      NumberRoundTrip(n / 256);
      assert BigEndian(n)[..|BigEndian(n)|-1] == BigEndian(n / 256);
    } else {
      assert BigEndian(n)[..0] == [];
    }
  }

  lemma {:induction false} BytesRoundTrip(b: Bytes)
    requires b != [] && b[0] != 0
    ensures BigEndian(FromBigEndian(b)) == b && FromBigEndian(b) > 0
  {
    var init := b[..|b|-1];
    if init == [] {
      assert FromBigEndian(b) == b[0] as nat;
    } else {
      BytesRoundTrip(init);
      assert FromBigEndian(b) / 256 == FromBigEndian(init) && FromBigEndian(b) % 256 == b[|b|-1] as nat;
      assert b == init + [b[|b|-1]];
    }
  }

  /** The first byte weighs most. */
  lemma {:induction false} MostSignificantFirst(b: Bytes)
    requires b != []
    ensures FromBigEndian(b) == b[0] as nat * Power256(|b| - 1) + FromBigEndian(b[1..])
  {
    var n := |b| - 1;
    if n > 0 {
      MostSignificantFirst(b[..n]);
      assert b[..n][1..] == b[1..][..n-1];
      ScaleUp(b[0] as nat, Power256(n - 1));
      assert FromBigEndian(b[1..]) == 256 * FromBigEndian(b[1..][..n-1]) + b[n] as nat;
    } else {
      assert b[..0] == [] && b[1..] == [];
    }
  }

  lemma ScaleUp(a: nat, p: nat)
    ensures 256 * (a * p) == a * (256 * p)
  {
  }

  /** Numbers below 2^64 take at most eight bytes. */
  lemma EightBytes(n: nat)
    requires n < LENGTH_LIMIT
    ensures |BigEndian(n)| <= 8
  {
    Shorter(n, 8);
  }

  function Power256(k: nat): nat {
    if k == 0 then 1 else 256 * Power256(k - 1)
  }

  lemma {:induction false} Shorter(n: nat, k: nat)
    requires 0 < k && n < Power256(k)
    ensures |BigEndian(n)| <= k
  {
    if n >= 256 {
      assert k > 1;
      Shorter(n / 256, k - 1);
    }
  }

  // ----- encoding -----

  function EncodeLength(len: nat, offset: nat): (r: Bytes)
    requires offset == 128 || offset == 192
    ensures r != []
  {
    if len < 56 then [(len + offset) as Byte]
    else BigEndian(offset + 55 + |BigEndian(len)|) + BigEndian(len)
  }

  function Encoding(x: Item): (r: Bytes)
    ensures r != []
    decreases x, 0
  {
    match x
    case Str(b) => if |b| == 1 && b[0] < 128 then b else EncodeLength(|b|, 128) + b
    case List(xs) => EncodeLength(|Encodings(xs)|, 192) + Encodings(xs)
  }

  /** The items' encodings one after the other. */
  function Encodings(xs: seq<Item>): Bytes
    decreases xs, 1
  {
    if xs == [] then [] else Encodings(xs[..|xs|-1]) + Encoding(xs[|xs|-1])
  }

  method Encode(x: Item) returns (r: Bytes)
    ensures r == Encoding(x)
    decreases x
  {
    match x
    case List(xs) =>
      var output: Bytes := [];
      for i := 0 to |xs|
        invariant output == Encodings(xs[..i])
      {
        var encoded := Encode(xs[i]);
        assert xs[..i+1][..i] == xs[..i];
        output := output + encoded;
      }
      assert xs[..|xs|] == xs;
      r := EncodeLength(|output|, 192) + output;
    case Str(b) =>
      if |b| == 1 && b[0] < 128 {
        r := b;
      } else {
        r := EncodeLength(|b|, 128) + b;
      }
  }

  // ----- decoding -----

  function DecodeLength(v: Bytes): Outcome<nat>
    requires v != []
  {
    if v[0] == 0 then Err(ExtraZeros) else Ok(FromBigEndian(v))
  }

  function SafeSlice(input: Bytes, start: nat, end: nat): (r: Outcome<Bytes>)
    requires start <= end
    ensures r.Ok? <==> end <= |input|
  {
    if end > |input| then Err(OutOfBounds) else Ok(input[start..end])
  }

  /** Parse a byte string off the front. */
  function ParseString(input: Bytes): (r: Outcome<Decoded>)
    requires input != [] && input[0] <= 0xbf
    ensures r.Ok? ==> |r.value.remainder| < |input|
  {
    var first := input[0] as nat;
    if first <= 0x7f then Ok(Decoded(Str(input[..1]), input[1..]))
    else if first <= 0xb7 then
      var length := first - 0x7f;
      var data :- if first == 0x80 then Ok([]) else SafeSlice(input, 1, length);
      if length == 2 && data[0] < 0x80 then Err(InvalidPrefix)
      else Ok(Decoded(Str(data), input[length..]))
    else
      var lLength := first - 0xb6;
      if |input| - 1 < lLength then Err(NotEnoughBytes)
      else
        var digits :- SafeSlice(input, 1, lLength);
        var length :- DecodeLength(digits);
        if length <= 55 then Err(StringTooShort)
        else
          var data :- SafeSlice(input, lLength, length + lLength);
          Ok(Decoded(Str(data), input[length + lLength..]))
  }

  /** Parse one item off the front. */
  function Parse(input: Bytes): (r: Outcome<Decoded>)
    requires input != []
    ensures r.Ok? ==> |r.value.remainder| < |input|
    decreases |input|, 0
  {
    var first := input[0] as nat;
    if first <= 0xbf then ParseString(input)
    else if first <= 0xf7 then
      var length := first - 0xbf;
      var inner :- SafeSlice(input, 1, length);
      var items :- ParseAll(inner);
      Ok(Decoded(List(items), input[length..]))
    else
      var lLength := first - 0xf6;
      var digits :- SafeSlice(input, 1, lLength);
      var length :- DecodeLength(digits);
      if length < 56 then Err(ListTooShort)
      else if lLength + length > |input| then Err(TotalTooLarge)
      else
        var inner :- SafeSlice(input, lLength, lLength + length);
        var items :- ParseAll(inner);
        Ok(Decoded(List(items), input[lLength + length..]))
  }

  /** Parse items until nothing is left. */
  function ParseAll(input: Bytes): Outcome<seq<Item>>
    decreases |input|, 1
  {
    if input == [] then Ok([])
    else
      var d :- Parse(input);
      var rest :- ParseAll(d.remainder);
      Ok([d.data] + rest)
  }

  /** The whole input is one item; nothing at all reads as the empty string. */
  function DecodingOf(input: Bytes): Outcome<Item>
  {
    if input == [] then Ok(Str([]))
    else
      var d :- Parse(input);
      if d.remainder != [] then Err(RemainderNotZero) else Ok(d.data)
  }

  method Decode(input: Bytes) returns (r: Outcome<Item>)
    ensures r == DecodingOf(input)
  {
    if |input| == 0 { return Ok(Str([])); }
    var d := DecodeFront(input);
    if d.Err? { return Err(d.error); }
    if |d.value.remainder| != 0 { return Err(RemainderNotZero); }
    return Ok(d.value.data);
  }

  method DecodeFront(input: Bytes) returns (r: Outcome<Decoded>)
    requires input != []
    ensures r == Parse(input)
    decreases |input|, 0
  {
    var first := input[0] as nat;
    if first <= 0xbf {
      r := ParseString(input);
    } else if first <= 0xf7 {
      var length := first - 0xbf;
      var inner := SafeSlice(input, 1, length);
      if inner.Err? { return Err(inner.error); }
      var items := DecodeItems(inner.value);
      if items.Err? { return Err(items.error); }
      r := Ok(Decoded(List(items.value), input[length..]));
    } else {
      var lLength := first - 0xf6;
      var digits := SafeSlice(input, 1, lLength);
      if digits.Err? { return Err(digits.error); }
      var length := DecodeLength(digits.value);
      if length.Err? { return Err(length.error); }
      if length.value < 56 { return Err(ListTooShort); }
      var totalLength := lLength + length.value;
      if totalLength > |input| { return Err(TotalTooLarge); }
      var items := DecodeItems(input[lLength..totalLength]);
      if items.Err? { return Err(items.error); }
      r := Ok(Decoded(List(items.value), input[totalLength..]));
    }
  }

  /** Decode items off the front until nothing is left. */
  method DecodeItems(input: Bytes) returns (r: Outcome<seq<Item>>)
    ensures r == ParseAll(input)
    decreases |input|, 1
  {
    var inner, decoded := input, [];
    AfterNothing(ParseAll(input));
    while inner != []
      invariant |inner| <= |input|
      invariant ParseAll(input) == After(decoded, ParseAll(inner))
      decreases |inner|
    {
      var d := DecodeFront(inner);
      if d.Err? { return Err(d.error); }
      AfterOne(decoded, d.value.data, ParseAll(d.value.remainder));
      decoded := decoded + [d.value.data];
      inner := d.value.remainder;
    }
    assert decoded + [] == decoded;
    r := Ok(decoded);
  }

  function After(front: seq<Item>, rest: Outcome<seq<Item>>): Outcome<seq<Item>> {
    if rest.Ok? then Ok(front + rest.value) else rest
  }

  lemma AfterNothing(rest: Outcome<seq<Item>>)
    ensures After([], rest) == rest
  {
    if rest.Ok? { assert [] + rest.value == rest.value; }
  }

  lemma AfterOne(front: seq<Item>, x: Item, rest: Outcome<seq<Item>>)
    ensures After(front, After([x], rest)) == After(front + [x], rest)
  {
    if rest.Ok? { assert front + ([x] + rest.value) == front + [x] + rest.value; }
  }

  // ----- decoding undoes encoding -----

  lemma Associative(a: Bytes, b: Bytes, c: Bytes)
    ensures a + b + c == a + (b + c)
  {
  }

  lemma {:induction false} EncodingsFront(xs: seq<Item>)
    requires xs != []
    ensures Encodings(xs) == Encoding(xs[0]) + Encodings(xs[1..])
  {
    if |xs| == 1 {
      assert xs[..0] == [] && xs[1..] == [];
    } else {
      var init, tail, last := xs[..|xs|-1], xs[1..], Encoding(xs[|xs|-1]);
      EncodingsFront(init);
      assert init[1..] == tail[..|tail|-1] && tail[|tail|-1] == xs[|xs|-1];
      assert Encodings(tail) == Encodings(init[1..]) + last;
      Associative(Encoding(xs[0]), Encodings(init[1..]), last);
    }
  }

  /** The header of a payload of 56 bytes or more. */
  lemma LongHeader(len: nat, offset: nat, rest: Bytes)
    requires (offset == 128 || offset == 192) && 56 <= len < LENGTH_LIMIT
    ensures var digits, all := BigEndian(len), EncodeLength(len, offset) + rest;
            && 1 <= |digits| <= 8 && all[0] as nat == offset + 55 + |digits|
            && 1 + |digits| <= |all| && all[1..1 + |digits|] == digits && all[1 + |digits|..] == rest
            && DecodeLength(digits) == Ok(len)
  {
    EightBytes(len);
    NumberRoundTrip(len);
    var digits := BigEndian(len);
    assert EncodeLength(len, offset) == [(offset + 55 + |digits|) as Byte] + digits;
  }

  /** Parsing an encoding gives the item back, and whatever followed it. */
  lemma {:induction false} ParseEncoding(x: Item, rest: Bytes)
    requires |Encoding(x)| < LENGTH_LIMIT
    ensures Parse(Encoding(x) + rest) == Ok(Decoded(x, rest))
    decreases x, 0
  {
    match x
    case Str(b) =>
      if |b| == 1 && b[0] < 128 {
        assert (b + rest)[..1] == b && (b + rest)[1..] == rest;
      } else {
        StringPayload(b, rest);
      }
    case List(xs) =>
      ParseEncodings(xs);
      ListPayload(xs, rest);
  }

  /** Where a payload stands between its header and what follows. */
  lemma Placed(header: Bytes, b: Bytes, rest: Bytes)
    ensures var all, n := header + b + rest, |header|;
            all == header + (b + rest) && all[n..n + |b|] == b && all[n + |b|..] == rest
  {
  }

  /** A sequence is its three parts. */
  lemma Cut(s: Bytes, i: nat, j: nat)
    requires i <= j <= |s|
    ensures s == s[..i] + s[i..j] + s[j..]
  {
  }

  lemma StringPayload(b: Bytes, rest: Bytes)
    requires |b| < LENGTH_LIMIT && !(|b| == 1 && b[0] < 128)
    ensures Parse(EncodeLength(|b|, 128) + b + rest) == Ok(Decoded(Str(b), rest))
  {
    Placed(EncodeLength(|b|, 128), b, rest);
    if |b| >= 56 { LongHeader(|b|, 128, b + rest); }
  }

  lemma ListPayload(xs: seq<Item>, rest: Bytes)
    requires |Encodings(xs)| < LENGTH_LIMIT && ParseAll(Encodings(xs)) == Ok(xs)
    ensures Parse(Encoding(List(xs)) + rest) == Ok(Decoded(List(xs), rest))
  {
    var b := Encodings(xs);
    Placed(EncodeLength(|b|, 192), b, rest);
    if |b| >= 56 { LongHeader(|b|, 192, b + rest); }
  }

  lemma {:induction false} ParseEncodings(xs: seq<Item>)
    requires |Encodings(xs)| < LENGTH_LIMIT
    ensures ParseAll(Encodings(xs)) == Ok(xs)
    decreases xs, 1
  {
    if xs != [] {
      EncodingsFront(xs);
      ParseEncoding(xs[0], Encodings(xs[1..]));
      ParseEncodings(xs[1..]);
      assert [xs[0]] + xs[1..] == xs;
    }
  }

  // ----- encoding undoes decoding -----

  lemma ShortPayload(input: Bytes, length: nat, offset: nat)
    requires offset == 128 || offset == 192
    requires 1 <= length <= |input| && length <= 56 && input[0] as nat == offset + length - 1
    ensures input == EncodeLength(length - 1, offset) + input[1..length] + input[length..]
  {
    assert EncodeLength(length - 1, offset) == [input[0]];
    Cut(input, 1, length);
  }

  lemma LongPayload(input: Bytes, lLength: nat, length: nat, offset: nat)
    requires offset == 128 || offset == 192
    requires 2 <= lLength <= 9 && 56 <= length && lLength + length <= |input|
    requires input[0] as nat == offset + 54 + lLength && DecodeLength(input[1..lLength]) == Ok(length)
    ensures input == EncodeLength(length, offset) + input[lLength..lLength + length] + input[lLength + length..]
  {
    var digits := input[1..lLength];
    BytesRoundTrip(digits);
    assert EncodeLength(length, offset) == [input[0]] + digits == input[..lLength];
    Cut(input, lLength, lLength + length);
  }

  /** Whatever parses is the canonical encoding of what it parses to. */
  lemma {:induction false} ParseIsCanonical(input: Bytes)
    requires input != [] && Parse(input).Ok?
    ensures var d := Parse(input).value; input == Encoding(d.data) + d.remainder
    decreases |input|, 0
  {
    var first := input[0] as nat;
    if first <= 0xbf {
      StringIsCanonical(input);
    } else if first <= 0xf7 {
      ParseAllIsCanonical(input[1..first - 0xbf]);
      ShortPayload(input, first - 0xbf, 192);
    } else {
      var lLength := first - 0xf6;
      var length := FromBigEndian(input[1..lLength]);
      ParseAllIsCanonical(input[lLength..lLength + length]);
      LongPayload(input, lLength, length, 192);
    }
  }

  lemma StringIsCanonical(input: Bytes)
    requires input != [] && input[0] <= 0xbf && ParseString(input).Ok?
    ensures var d := ParseString(input).value; input == Encoding(d.data) + d.remainder
  {
    var first := input[0] as nat;
    if 0x80 <= first <= 0xb7 {
      ShortPayload(input, first - 0x7f, 128);
    } else if first > 0xb7 {
      var lLength := first - 0xb6;
      LongPayload(input, lLength, FromBigEndian(input[1..lLength]), 128);
    }
  }

  lemma {:induction false} ParseAllIsCanonical(input: Bytes)
    requires ParseAll(input).Ok?
    ensures Encodings(ParseAll(input).value) == input
    decreases |input|, 1
  {
    if input != [] {
      ParseIsCanonical(input);
      var d := Parse(input).value;
      ParseAllIsCanonical(d.remainder);
      var xs := ParseAll(input).value;
      assert xs[1..] == ParseAll(d.remainder).value;
      EncodingsFront(xs);
    }
  }

  // ----- the form of an encoding -----

  /** The bytes of a string, or the items' encodings. */
  function Payload(x: Item): Bytes {
    match x
    case Str(b) => b
    case List(xs) => Encodings(xs)
  }

  /**
    A byte below 0x80 stands for itself.  Up to 55 bytes follow one byte with their number, more
    follow their number in big-endian form and one byte with the length of that.
  */
  predicate Encodes(e: Bytes, x: Item) {
    var p := Payload(x);
    if x.Str? && |p| == 1 && p[0] <= 0x7f then e == p
    else if |p| <= 55 then e != [] && e[0] as nat == (if x.Str? then 0x80 else 0xc0) + |p| && e[1..] == p
    else LongForm(e, if x.Str? then 0xb7 else 0xf7, p)
  }

  predicate LongForm(e: Bytes, offset: nat, p: Bytes) {
    e != [] &&
    var k := e[0] as int - offset;
    && 1 <= k <= 8 && k < |e| && e[1] != 0
    && FromBigEndian(e[1..1 + k]) == |p| && e[1 + k..] == p
  }

  /** Exactly the encoding has this form. */
  lemma EncodingForm(x: Item, e: Bytes)
    requires |Encoding(x)| < LENGTH_LIMIT
    ensures Encodes(e, x) <==> e == Encoding(x)
  {
    var p, offset := Payload(x), if x.Str? then 128 else 192;
    if !(x.Str? && |p| == 1 && p[0] <= 0x7f) {
      assert Encoding(x) == EncodeLength(|p|, offset) + p;
      if |p| <= 55 {
        assert e != [] && e[1..] == p ==> e == [e[0]] + p;
      } else {
        LongFormIs(e, offset, p);
      }
    }
  }

  /** Two sequences with the same first byte and the same parts around a place are the same. */
  lemma SameParts(s: Bytes, t: Bytes, i: nat)
    requires 1 <= i <= |s| && i <= |t| && s[0] == t[0] && s[1..i] == t[1..i] && s[i..] == t[i..]
    ensures s == t
  {
    assert s[..1] == t[..1];
    Cut(s, 1, i);
    Cut(t, 1, i);
  }

  lemma LongFormIs(e: Bytes, offset: nat, p: Bytes)
    requires (offset == 128 || offset == 192) && 56 <= |p| < LENGTH_LIMIT
    ensures LongForm(e, offset + 55, p) <==> e == EncodeLength(|p|, offset) + p
  {
    LongHeader(|p|, offset, p);
    NumberRoundTrip(|p|);
    if LongForm(e, offset + 55, p) {
      var k := e[0] as int - (offset + 55);
      BytesRoundTrip(e[1..1 + k]);
      SameParts(e, EncodeLength(|p|, offset) + p, 1 + k);
    }
  }

  // ----- what this means for callers -----

  /** No encoding is the start of another, so encodings can be told apart in a stream. */
  lemma PrefixFree(x: Item, y: Item, r: Bytes, s: Bytes)
    requires |Encoding(x)| < LENGTH_LIMIT && |Encoding(y)| < LENGTH_LIMIT
    requires Encoding(x) + r == Encoding(y) + s
    ensures x == y && r == s
  {
    ParseEncoding(x, r);
    ParseEncoding(y, s);
  }

  /**
    Decoding accepts exactly the encodings, each as the item it encodes; beside them only the
    empty input, as the empty string.
  */
  lemma DecodesExactlyEncodings(input: Bytes, x: Item)
    requires |input| < LENGTH_LIMIT
    ensures DecodingOf(input) == Ok(x) <==> input == Encoding(x) || (input == [] && x == Str([]))
  {
    if input != [] && Parse(input).Ok? {
      ParseIsCanonical(input);
    }
    if input == Encoding(x) {
      ParseEncoding(x, []);
      assert input + [] == input;
    }
  }
}
