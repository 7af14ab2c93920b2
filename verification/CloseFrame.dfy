/** The check of raw close frames before they are decoded (sections 5.2, 5.3 and 5.5.1 of RFC 6455). */
module CloseFrame {
  import opened Wrappers
  import opened Utf8

  const MAX_CONTROL_PAYLOAD := 125
  const MAX_CLOSE_REASON := MAX_CONTROL_PAYLOAD - 2

  datatype CloseError = InvalidLength | Overflow | InvalidUtf8

  // ---- Masking ------------------------------------------------------------

  /** Exclusive or of the low `bits` bits. */
  function XorBits(a: nat, b: nat, bits: nat): (r: nat)
    ensures r < Power2(bits)
  {
    if bits == 0 then 0 else (a % 2 + b % 2) % 2 + 2 * XorBits(a / 2, b / 2, bits - 1)
  }

  function Power2(n: nat): (p: nat)
    ensures p > 0
  {
    if n == 0 then 1 else 2 * Power2(n - 1)
  }

  function Xor(a: Byte, b: Byte): Byte {
    assert Power2(8) == 256 by { assert Power2(4) == 16; }
    XorBits(a, b, 8)
  }

  lemma {:induction false} XorBitsTwice(a: nat, b: nat, bits: nat)
    requires a < Power2(bits)
    ensures XorBits(XorBits(a, b, bits), b, bits) == a
  {
    if bits > 0 {
      var rest := XorBits(a / 2, b / 2, bits - 1);
      XorBitsTwice(a / 2, b / 2, bits - 1);
      LowBit((a % 2 + b % 2) % 2, rest);
      Parity(a % 2, b % 2);
      assert XorBits(a, b, bits) == (a % 2 + b % 2) % 2 + 2 * rest;
    }
  }

  lemma LowBit(bit: nat, rest: nat)
    requires bit < 2
    ensures (bit + 2 * rest) % 2 == bit && (bit + 2 * rest) / 2 == rest
  {
  }

  lemma Parity(x: nat, y: nat)
    requires x < 2 && y < 2
    ensures ((x + y) % 2 + y) % 2 == x
  {
  }

  lemma XorTwice(a: Byte, b: Byte)
    ensures Xor(Xor(a, b), b) == a
  {
    assert Power2(8) == 256 by { assert Power2(4) == 16; }
    XorBitsTwice(a, b, 8);
  }

  /** The masking transform; `offset` is the position of `data` in the payload. */
  function Masked(data: seq<Byte>, mask: seq<Byte>, offset: nat): (r: seq<Byte>)
    requires |mask| == 4
    ensures |r| == |data| && forall i :: 0 <= i < |data| ==> r[i] == Xor(data[i], mask[(i + offset) % 4])
  {
    seq(|data|, i requires 0 <= i < |data| => Xor(data[i], mask[(i + offset) % 4]))
  }

  lemma MaskedSlice(data: seq<Byte>, mask: seq<Byte>, from: nat)
    requires |mask| == 4 && from <= |data|
    ensures Masked(data[from..], mask, from) == Masked(data, mask, 0)[from..]
  {
  }

  /** Unmasking is masking. */
  lemma MaskedTwice(data: seq<Byte>, mask: seq<Byte>)
    requires |mask| == 4
    ensures Masked(Masked(data, mask, 0), mask, 0) == data
  {
    forall i | 0 <= i < |data| ensures Masked(Masked(data, mask, 0), mask, 0)[i] == data[i] {
      XorTwice(data[i], mask[i % 4]);
    }
  }

  // ---- Lengths ------------------------------------------------------------

  function BigEndian(bytes: seq<Byte>): nat {
    if bytes == [] then 0 else BigEndian(bytes[..|bytes| - 1]) * 256 + bytes[|bytes| - 1]
  }

  function ToBigEndian(n: nat, width: nat): (bytes: seq<Byte>)
    ensures |bytes| == width
  {
    if width == 0 then [] else ToBigEndian(n / 256, width - 1) + [n % 256]
  }

  function Power256(width: nat): (p: nat)
    ensures p > 0
  {
    if width == 0 then 1 else 256 * Power256(width - 1)
  }

  lemma {:induction false} LengthRoundTrip(n: nat, width: nat)
    requires n < Power256(width)
    ensures BigEndian(ToBigEndian(n, width)) == n
  {
    if width > 0 {
      LengthRoundTrip(n / 256, width - 1);
      var bytes := ToBigEndian(n, width);
      assert bytes[..width - 1] == ToBigEndian(n / 256, width - 1);
    }
  }

  lemma {:induction false} LengthIsUnique(bytes: seq<Byte>)
    ensures BigEndian(bytes) < Power256(|bytes|)
    ensures ToBigEndian(BigEndian(bytes), |bytes|) == bytes
  {
    if bytes != [] {
      var n := |bytes| - 1;
      LengthIsUnique(bytes[..n]);
      assert BigEndian(bytes) / 256 == BigEndian(bytes[..n]);
    }
  }

  // ---- Frames -------------------------------------------------------------

  datatype LengthForm = Short | Medium | Long

  /** A close frame: its first byte, its mask if any, the way its length is written, its payload. */
  datatype Frame = Frame(first: Byte, mask: Option<seq<Byte>>, form: LengthForm, payload: seq<Byte>)

  function FormWidth(form: LengthForm): nat {
    match form case Short => 0 case Medium => 2 case Long => 8
  }

  ghost predicate ValidFrame(f: Frame) {
    && f.first % 16 == 8
    && (f.mask.Some? ==> |f.mask.value| == 4)
    && (if f.form.Short? then |f.payload| <= 125 else |f.payload| < Power256(FormWidth(f.form)))
  }

  function LengthCode(f: Frame): Byte
    requires f.form.Short? ==> |f.payload| <= 125
  {
    (if f.mask.Some? then 128 else 0)
    + match f.form case Short => |f.payload| case Medium => 126 case Long => 127
  }

  function MaskBytes(f: Frame): seq<Byte> { if f.mask.Some? then f.mask.value else [] }

  function MaskedPayload(f: Frame): (r: seq<Byte>)
    requires f.mask.Some? ==> |f.mask.value| == 4
    ensures |r| == |f.payload|
  {
    if f.mask.Some? then Masked(f.payload, f.mask.value, 0) else f.payload
  }

  ghost function Encode(f: Frame): (r: seq<Byte>)
    requires ValidFrame(f)
    ensures |r| == HeaderLength(f) + |f.payload|
  {
    [f.first, LengthCode(f)] + ToBigEndian(|f.payload|, FormWidth(f.form)) + MaskBytes(f) + MaskedPayload(f)
  }

  ghost function HeaderLength(f: Frame): nat
    requires ValidFrame(f)
  {
    2 + FormWidth(f.form) + |MaskBytes(f)|
  }

  /** What a complete close frame deserves: a code without its second byte, or a reason that is
      not text, is refused. */
  function Verdict(payload: seq<Byte>): Option<CloseError> {
    if |payload| == 1 then Some(InvalidLength)
    else if |payload| > 2 && !Valid(payload[2..]) then Some(InvalidUtf8)
    else None
  }

  // ---- The check ----------------------------------------------------------

  /** The width of the extended length announced by the second byte. */
  function Width(second: Byte): nat {
    if second % 128 == 126 then 2 else if second % 128 == 127 then 8 else 0
  }

  function Payload(buf: seq<Byte>): nat
    requires |buf| >= 2 && |buf| >= 2 + Width(buf[1])
  {
    if Width(buf[1]) == 0 then buf[1] % 128 else BigEndian(buf[2..2 + Width(buf[1])])
  }

  /** What is known of the frame at the start of a buffer. */
  datatype Seen = NotClose | Incomplete | TooLong | Complete(header: nat, payload: seq<Byte>)

  ghost function Inspect(buf: seq<Byte>, usizeMax: nat): Seen {
    if |buf| < 2 then Incomplete
    else if buf[0] % 16 != 8 then NotClose
    else
      var width := Width(buf[1]);
      if |buf| < 2 + width then Incomplete
      else
        var length := Payload(buf);
        var header := 2 + width + if buf[1] >= 128 then 4 else 0;
        if length > usizeMax then TooLong
        else if |buf| < header || |buf| < header + length then Incomplete
        else
          var raw := buf[header..header + length];
          Complete(header, if buf[1] >= 128 then Masked(raw, buf[header - 4..header], 0) else raw)
  }

  ghost function Check(seen: Seen): Option<CloseError> {
    match seen
    case TooLong => Some(Overflow)
    case Complete(_, payload) => Verdict(payload)
    case _ => None
  }

  /** `usizeMax` is the largest machine word; every buffer is shorter. */
  method ValidateRawCloseReason(buf: seq<Byte>, usizeMax: nat) returns (r: Option<CloseError>)
    requires 65535 <= usizeMax && |buf| < usizeMax
    ensures r == Check(Inspect(buf, usizeMax))
  {
    hide Valid, Xor, Masked, BigEndian;
    if |buf| < 2 || buf[0] % 16 != 8 {
      return None;
    }
    var masked := buf[1] >= 128;
    var headerLen := 2;
    var payloadLen := buf[1] % 128;
    if payloadLen == 126 {
      if |buf| < 4 {
        return None;
      }
      headerLen := 4;
      payloadLen := BigEndian(buf[2..4]);
      TwoBytesFit(buf[2..4]);
    } else if payloadLen == 127 {
      if |buf| < 10 {
        return None;
      }
      headerLen := 10;
      payloadLen := BigEndian(buf[2..10]);
      if payloadLen > usizeMax {
        return Some(Overflow);
      }
    }
    var mask: seq<Byte> := [];
    if masked {
      if |buf| < headerLen + 4 {
        return None;
      }
      mask := buf[headerLen..headerLen + 4];
      headerLen := headerLen + 4;
    }
    var end := if headerLen + payloadLen > usizeMax then usizeMax else headerLen + payloadLen;
    if |buf| < end {
      return None;
    }
    if payloadLen == 1 {
      return Some(InvalidLength);
    }
    if payloadLen <= 2 {
      return None;
    }
    var payload := buf[headerLen..headerLen + payloadLen];
    var reason := if masked then Masked(payload[2..], mask, 2) else payload[2..];
    if masked {
      MaskedSlice(payload, mask, 2);
    }
    return if Valid(reason) then None else Some(InvalidUtf8);
  }

  lemma TwoBytesFit(bytes: seq<Byte>)
    requires |bytes| == 2
    ensures BigEndian(bytes) <= 65535
  {
    assert bytes[..1][..0] == [] && BigEndian(bytes[..1]) == bytes[0];
  }

  // ---- What the check decides ---------------------------------------------

  /** The pieces a buffer was put together from. */
  lemma Slices(a: seq<Byte>, b: seq<Byte>, c: seq<Byte>, d: seq<Byte>, rest: seq<Byte>)
    ensures var buf := a + b + c + d + rest; var i, j, k := |a|, |a| + |b|, |a| + |b| + |c|;
            buf[..i] == a && buf[i..j] == b && buf[j..k] == c && buf[k..k + |d|] == d && buf[k + |d|..] == rest
  {
    var buf := a + b + c + d + rest;
    assert buf == a + (b + (c + (d + rest)));
  }

  lemma CodeTells(f: Frame)
    requires ValidFrame(f)
    ensures Width(LengthCode(f)) == FormWidth(f.form) && (LengthCode(f) >= 128 <==> f.mask.Some?)
    ensures f.form.Short? ==> LengthCode(f) % 128 == |f.payload|
  {
  }

  lemma EncodedParts(f: Frame, rest: seq<Byte>)
    requires ValidFrame(f)
    ensures var buf := Encode(f) + rest; var width := FormWidth(f.form);
            && buf[0] == f.first && buf[1] == LengthCode(f) && Width(buf[1]) == width
            && (buf[1] >= 128 <==> f.mask.Some?)
            && buf[2..2 + width] == ToBigEndian(|f.payload|, width)
            && buf[2 + width..HeaderLength(f)] == MaskBytes(f)
            && buf[HeaderLength(f)..HeaderLength(f) + |f.payload|] == MaskedPayload(f)
            && Payload(buf) == |f.payload|
  {
    hide ToBigEndian, Masked, MaskedPayload, MaskBytes, LengthCode, BigEndian, Width;
    var head := [f.first, LengthCode(f)];
    var buf := Encode(f) + rest;
    Slices(head, ToBigEndian(|f.payload|, FormWidth(f.form)), MaskBytes(f), MaskedPayload(f), rest);
    assert buf[0] == buf[..2][0] && buf[1] == buf[..2][1];
    CodeTells(f);
    if !f.form.Short? {
      LengthRoundTrip(|f.payload|, FormWidth(f.form));
    }
  }

  /** A complete frame is judged by its payload, whatever its mask, its length form and what follows it. */
  lemma CompleteFrameJudged(f: Frame, rest: seq<Byte>, usizeMax: nat)
    requires ValidFrame(f) && |f.payload| <= usizeMax
    ensures Inspect(Encode(f) + rest, usizeMax) == Complete(HeaderLength(f), f.payload)
    ensures Check(Inspect(Encode(f) + rest, usizeMax)) == Verdict(f.payload)
  {
    hide ToBigEndian, Encode, Payload;
    EncodedParts(f, rest);
    if f.mask.Some? {
      MaskedTwice(f.payload, f.mask.value);
    }
  }

  lemma PrefixTells(whole: seq<Byte>, part: seq<Byte>)
    requires part <= whole && |part| >= 2 && |part| >= 2 + Width(part[1])
    ensures part[0] == whole[0] && part[1] == whole[1] && Payload(part) == Payload(whole)
  {
    hide BigEndian, Width;
    assert part[2..2 + Width(part[1])] == whole[2..2 + Width(whole[1])];
  }

  /** Nothing is refused before the whole frame has arrived. */
  lemma StrictPrefixAccepted(f: Frame, n: nat, usizeMax: nat)
    requires ValidFrame(f) && |f.payload| <= usizeMax && n < |Encode(f)|
    ensures Check(Inspect(Encode(f)[..n], usizeMax)) == None
  {
    hide ToBigEndian, Encode, Payload, Width, Masked, MaskedPayload, LengthCode;
    EncodedParts(f, []);
    var whole, part := Encode(f), Encode(f)[..n];
    assert whole + [] == whole;
    if n >= 2 && n >= 2 + Width(part[1]) {
      PrefixTells(whole, part);
    }
  }

  /** Whatever is refused is a length no machine could hold, or starts with a frame deserving it. */
  lemma RefusalDeserved(buf: seq<Byte>, usizeMax: nat) returns (f: Frame, rest: seq<Byte>)
    requires Check(Inspect(buf, usizeMax)).Some?
    ensures buf[0] % 16 == 8
    ensures Inspect(buf, usizeMax).TooLong? ==> |buf| >= 2 + Width(buf[1]) && Payload(buf) > usizeMax
    ensures Inspect(buf, usizeMax).Complete? ==>
              ValidFrame(f) && buf == Encode(f) + rest && Check(Inspect(buf, usizeMax)) == Verdict(f.payload)
  {
    f, rest := Frame(0, None, Short, []), [];
    var seen := Inspect(buf, usizeMax);
    if seen.Complete? {
      f, rest := Recovered(buf, usizeMax, seen);
    }
  }

  lemma Recovered(buf: seq<Byte>, usizeMax: nat, seen: Seen) returns (f: Frame, rest: seq<Byte>)
    requires seen == Inspect(buf, usizeMax) && seen.Complete?
    ensures ValidFrame(f) && f.payload == seen.payload && buf == Encode(f) + rest
  {
    hide ToBigEndian, BigEndian, Masked, Payload, LengthCode, Encode;
    var width, length := Width(buf[1]), Payload(buf);
    var masked := buf[1] >= 128;
    var mask := if masked then Some(buf[seen.header - 4..seen.header]) else None;
    var raw := buf[seen.header..seen.header + length];
    f := Frame(buf[0], mask, if width == 0 then Short else if width == 2 then Medium else Long, seen.payload);
    rest := buf[seen.header + length..];
    LengthRecovered(buf);
    assert MaskedPayload(f) == raw by {
      if masked {
        MaskedTwice(raw, mask.value);
      }
    }
    assert LengthCode(f) == buf[1] by { CodeRecovered(f, buf[1]); }
    assert MaskBytes(f) == buf[2 + width..seen.header];
    FivePieces(buf, 2 + width, seen.header, seen.header + length);
    assert Encode(f) == [buf[0], buf[1]] + buf[2..2 + width] + buf[2 + width..seen.header] + raw by {
      EncodeIs(f);
    }
  }

  lemma CodeRecovered(f: Frame, second: Byte)
    requires ValidFrame(f) && (f.mask.Some? <==> second >= 128) && Width(second) == FormWidth(f.form)
    requires f.form.Short? ==> |f.payload| == second % 128
    ensures LengthCode(f) == second
  {
  }

  lemma EncodeIs(f: Frame)
    requires ValidFrame(f)
    ensures Encode(f) == [f.first, LengthCode(f)] + ToBigEndian(|f.payload|, FormWidth(f.form)) + MaskBytes(f)
                         + MaskedPayload(f)
  {
  }

  lemma LengthRecovered(buf: seq<Byte>)
    requires |buf| >= 2 && |buf| >= 2 + Width(buf[1])
    ensures ToBigEndian(Payload(buf), Width(buf[1])) == buf[2..2 + Width(buf[1])]
    ensures if Width(buf[1]) == 0 then Payload(buf) == buf[1] % 128 <= 125 else Payload(buf) < Power256(Width(buf[1]))
  {
    LengthIsUnique(buf[2..2 + Width(buf[1])]);
  }

  lemma FivePieces(buf: seq<Byte>, a: nat, b: nat, c: nat)
    requires 2 <= a <= b <= c <= |buf|
    ensures buf == [buf[0], buf[1]] + buf[2..a] + buf[a..b] + buf[b..c] + buf[c..]
  {
  }

  /** A reason shortened by the sender always passes at the receiver. */
  lemma ShortenedReasonPasses(code: seq<Byte>, reason: seq<Byte>, mask: Option<seq<Byte>>, rest: seq<Byte>,
                              usizeMax: nat)
    requires |code| == 2 && Valid(reason) && |reason| <= MAX_CLOSE_REASON && usizeMax >= 65535
    requires mask.Some? ==> |mask.value| == 4
    ensures var f := Frame(0x88, mask, Short, code + reason);
            ValidFrame(f) && Check(Inspect(Encode(f) + rest, usizeMax)) == None
  {
    var f := Frame(0x88, mask, Short, code + reason);
    CompleteFrameJudged(f, rest, usizeMax);
    assert f.payload[2..] == reason;
  }

  /** The reason sent in a close frame. */
  method SentReason(description: seq<Byte>) returns (reason: seq<Byte>)
    requires Valid(description)
    ensures reason <= description && Valid(reason) && |reason| <= MAX_CLOSE_REASON
    ensures forall n :: |reason| < n <= MAX_CLOSE_REASON && n <= |description| ==> !Valid(description[..n])
    ensures if |description| <= MAX_CLOSE_REASON then reason == description else |reason| >= 120
  {
    reason := Truncate(description, MAX_CLOSE_REASON);
  }
}
