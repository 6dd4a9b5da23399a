/** The packet layer of the GDB server (GdbServerTcp.h), in the format of the Overview section of the GDB
    Remote Serial Protocol appendix of the GDB manual. */
module Gdb {

  /** A byte; the source's `char` is signed. */
  type Byte = b: int | 0 <= b < 256

  const DOLLAR: Byte := 36
  const HASH: Byte := 35
  const PLUS: Byte := 43
  const MINUS: Byte := 45

  /** Capacity of the receive buffer, with the byte for the final NUL. */
  const BUFFER := 4096

  /** The value of a byte as a signed char. */
  function Signed(b: Byte): int {
    if b < 128 then b else b - 256
  }

  /** fromhex */
  function FromHex(b: Byte): (d: nat)
    ensures d < 16
  {
    if '0' as int <= b <= '9' as int then b - '0' as int
    else if 'A' as int <= b <= 'F' as int then b - 'A' as int + 10
    else if 'a' as int <= b <= 'f' as int then b - 'a' as int + 10
    else 0
  }

  /** tohex */
  function ToHex(d: nat): (b: Byte)
    requires d < 16
  {
    if d < 10 then d + '0' as int else d - 10 + 'a' as int
  }

  lemma HexDigit(d: nat)
    requires d < 16
    ensures FromHex(ToHex(d)) == d && ToHex(d) != HASH && ToHex(d) != 0
  {
  }

  /** The digits of the protocol: sixteen are sent, six more are understood, and every other byte counts as 0. */
  lemma Numerals(d: nat, b: Byte)
    requires d < 16
    ensures var sent, capital := "0123456789abcdef", "0123456789ABCDEF";
            && ToHex(d) as char == sent[d]
            && (b as char in [sent[d], capital[d]] ==> FromHex(b) == d)
            && (b as char !in sent && b as char !in capital ==> FromHex(b) == 0)
  {
    var sent, capital := "0123456789abcdef", "0123456789ABCDEF";
    if b as char !in sent && b as char !in capital {
      forall k | 0 <= k < 16 ensures b as char != sent[k] && b as char != capital[k] {
        assert sent[k] in sent && capital[k] in capital;
      }
    }
  }

  /** `csum`, the sum of the signed characters. */
  function Sum(s: seq<Byte>): int {
    if s == [] then 0 else Sum(s[..|s| - 1]) + Signed(s[|s| - 1])
  }

  function UnsignedSum(s: seq<Byte>): nat {
    if s == [] then 0 else UnsignedSum(s[..|s| - 1]) + s[|s| - 1]
  }

  function Negatives(s: seq<Byte>): nat {
    if s == [] then 0 else Negatives(s[..|s| - 1]) + if s[|s| - 1] < 128 then 0 else 1
  }

  lemma {:induction false} SumDifference(s: seq<Byte>)
    ensures UnsignedSum(s) == Sum(s) + 256 * Negatives(s)
  {
    if s != [] {
      SumDifference(s[..|s| - 1]);
    }
  }

  lemma LowByte(x: int, p: int, r: int)
    requires x == 256 * p + r && 0 <= r < 256
    ensures x % 256 == r
  {
  }

  /** `csum & 0xff`: the sum of the bytes modulo 256, whatever the signedness of char. */
  lemma SignFree(s: seq<Byte>)
    ensures Sum(s) % 256 == UnsignedSum(s) % 256
  {
    hide Sum, UnsignedSum, Negatives;
    SumDifference(s);
    LowByte(Sum(s), UnsignedSum(s) / 256 - Negatives(s), UnsignedSum(s) % 256);
  }

  /** The bytes that put_packet sends for a payload. */
  function Frame(payload: seq<Byte>): seq<Byte> {
    var csum := Sum(payload);
    [DOLLAR] + payload + [HASH, ToHex(csum / 16 % 16), ToHex(csum % 16)]
  }

  lemma ChecksumDigits(csum: int)
    ensures csum / 16 % 16 * 16 + csum % 16 == csum % 256
  {
    var q, r := csum / 16, csum % 16;
    var p, t := q / 16, q % 16;
    assert csum == 16 * q + r && q == 16 * p + t;
    LowByte(csum, p, 16 * t + r);
  }

  datatype DecodeState = Idle | GetLine | Checksum1 | Checksum2

  /** The receiver: its decode state, the packet data and first digit it holds, the replies it has sent and
      the packets it has handed to handle_packet. */
  datatype Receiver = Receiver(state: DecodeState, line: seq<Byte>, csum: nat, replies: seq<Byte>, handled: seq<seq<Byte>>)

  /** A C string ends at its first NUL. */
  function CString(s: seq<Byte>): seq<Byte> {
    if s == [] || s[0] == 0 then [] else [s[0]] + CString(s[1..])
  }

  /** read_byte */
  function ReadByte(r: Receiver, ch: Byte): Receiver {
    match r.state
    case Idle => if ch == DOLLAR then r.(line := [], state := GetLine) else r
    case GetLine =>
      if ch == HASH then r.(state := Checksum1)
      else if |r.line| >= BUFFER - 1 then r.(state := Idle)
      else r.(line := r.line + [ch])
    case Checksum1 => r.(csum := FromHex(ch) * 16, state := Checksum2)
    case Checksum2 =>
      var csum := r.csum + FromHex(ch);
      if csum != Sum(r.line) % 256 then r.(csum := csum, replies := r.replies + [MINUS], state := Idle)
      else r.(csum := csum, replies := r.replies + [PLUS], handled := r.handled + [CString(r.line)], state := Idle)
  }

  function ReadBytes(r: Receiver, s: seq<Byte>): Receiver
    decreases s
  {
    if s == [] then r else ReadBytes(ReadByte(r, s[0]), s[1..])
  }

  lemma {:induction false} ReadConcat(r: Receiver, s: seq<Byte>, t: seq<Byte>)
    ensures ReadBytes(r, s + t) == ReadBytes(ReadBytes(r, s), t)
    decreases s
  {
    if s == [] {
      assert s + t == t;
    } else {
      assert (s + t)[0] == s[0] && (s + t)[1..] == s[1..] + t;
      ReadConcat(ReadByte(r, s[0]), s[1..], t);
    }
  }

  /** Packet data without `#` that fits the buffer is stored. */
  lemma {:induction false} ReadLine(r: Receiver, s: seq<Byte>)
    requires r.state.GetLine? && |r.line| + |s| <= BUFFER - 1 && HASH !in s
    ensures ReadBytes(r, s) == r.(line := r.line + s)
    decreases s
  {
    if s == [] {
      assert r.line + s == r.line;
    } else {
      assert HASH !in s[1..] && r.line + [s[0]] + s[1..] == r.line + s;
      ReadLine(r.(line := r.line + [s[0]]), s[1..]);
    }
  }

  lemma ReadStart(r: Receiver, s: seq<Byte>)
    requires r.state.Idle?
    ensures ReadBytes(r, [DOLLAR] + s) == ReadBytes(r.(line := [], state := GetLine), s)
  {
    assert ([DOLLAR] + s)[1..] == s;
  }

  lemma ReadTrailer(r: Receiver, a: Byte, b: Byte, c: Byte)
    ensures ReadBytes(r, [a, b, c]) == ReadByte(ReadByte(ReadByte(r, a), b), c)
  {
    hide ReadByte;
    assert [a, b, c][1..] == [b, c] && [b, c][1..] == [c] && [c][1..] == [];
    var r' := ReadByte(ReadByte(r, a), b);
    assert ReadBytes(r', [c]) == ReadBytes(ReadByte(r', c), []);
    assert ReadBytes(ReadByte(r, a), [b, c]) == ReadBytes(r', [c]);
  }

  /** The end of a frame. */
  lemma ReadSum(r: Receiver, hi: Byte, lo: Byte)
    requires r.state.GetLine?
    ensures var r' := ReadByte(ReadByte(ReadByte(r, HASH), hi), lo);
            && r'.state.Idle?
            && if FromHex(hi) * 16 + FromHex(lo) == Sum(r.line) % 256
               then r'.replies == r.replies + [PLUS] && r'.handled == r.handled + [CString(r.line)]
               else r'.replies == r.replies + [MINUS] && r'.handled == r.handled
  {
    hide FromHex, Sum, CString;
  }

  /** A complete frame: whatever its two digits say decides between `+`, with the packet handled, and `-`. */
  lemma ReadFrame(r: Receiver, payload: seq<Byte>, hi: Byte, lo: Byte)
    requires r.state.Idle? && |payload| <= BUFFER - 1 && HASH !in payload
    ensures var r' := ReadBytes(r, [DOLLAR] + payload + [HASH, hi, lo]);
            && r'.state.Idle?
            && if FromHex(hi) * 16 + FromHex(lo) == UnsignedSum(payload) % 256
               then r'.replies == r.replies + [PLUS] && r'.handled == r.handled + [CString(payload)]
               else r'.replies == r.replies + [MINUS] && r'.handled == r.handled
  {
    hide ReadBytes, ReadByte, FromHex, Sum, UnsignedSum, CString;
    var start := r.(line := [], state := GetLine);
    assert [DOLLAR] + payload + [HASH, hi, lo] == [DOLLAR] + (payload + [HASH, hi, lo]) && [] + payload == payload;
    ReadStart(r, payload + [HASH, hi, lo]);
    ReadConcat(start, payload, [HASH, hi, lo]);
    ReadLine(start, payload);
    ReadTrailer(start.(line := payload), HASH, hi, lo);
    ReadSum(start.(line := payload), hi, lo);
    SignFree(payload);
  }

  lemma {:induction false} WholeString(s: seq<Byte>)
    requires 0 !in s
    ensures CString(s) == s
  {
    if s != [] { WholeString(s[1..]); }
  }

  /** What put_packet sends is acknowledged once, handed over unchanged, and leaves the receiver idle. */
  lemma FrameRoundTrip(r: Receiver, payload: seq<Byte>)
    requires r.state.Idle? && |payload| <= BUFFER - 1 && HASH !in payload && 0 !in payload
    ensures var r' := ReadBytes(r, Frame(payload));
            r'.state.Idle? && r'.replies == r.replies + [PLUS] && r'.handled == r.handled + [payload]
  {
    var csum := Sum(payload);
    ReadFrame(r, payload, ToHex(csum / 16 % 16), ToHex(csum % 16));
    HexDigit(csum / 16 % 16);
    HexDigit(csum % 16);
    ChecksumDigits(csum);
    SignFree(payload);
    WholeString(payload);
  }

  /** memtohex, without the final NUL, and hextomem for half as many bytes as there are digits. */
  function MemToHex(mem: seq<Byte>): (buf: seq<Byte>)
    ensures |buf| == 2 * |mem|
  {
    if mem == [] then [] else [ToHex(mem[0] / 16), ToHex(mem[0] % 16)] + MemToHex(mem[1..])
  }

  function HexToMem(buf: seq<Byte>): seq<Byte> {
    if |buf| < 2 then [] else [FromHex(buf[0]) * 16 + FromHex(buf[1])] + HexToMem(buf[2..])
  }

  lemma {:induction false} HexRoundTrip(mem: seq<Byte>)
    ensures HexToMem(MemToHex(mem)) == mem && HASH !in MemToHex(mem) && 0 !in MemToHex(mem)
  {
    if mem != [] {
      var digits := [ToHex(mem[0] / 16), ToHex(mem[0] % 16)];
      HexDigit(mem[0] / 16);
      HexDigit(mem[0] % 16);
      HexRoundTrip(mem[1..]);
      assert MemToHex(mem)[2..] == MemToHex(mem[1..]);
    }
  }

  /** The high digit of a byte comes first, in both directions. */
  lemma {:induction false} HexAt(mem: seq<Byte>, i: nat)
    requires i < |mem|
    ensures MemToHex(mem)[2 * i] == ToHex(mem[i] / 16) && MemToHex(mem)[2 * i + 1] == ToHex(mem[i] % 16)
  {
    if i > 0 { HexAt(mem[1..], i - 1); }
  }

  lemma {:induction false} MemAt(buf: seq<Byte>, i: nat)
    requires 2 * i + 1 < |buf|
    ensures i < |HexToMem(buf)| && HexToMem(buf)[i] == FromHex(buf[2 * i]) * 16 + FromHex(buf[2 * i + 1])
  {
    if i > 0 { MemAt(buf[2..], i - 1); }
  }

  /** `OK` */
  const ANSWER: seq<Byte> := [79, 75]

  /** `$OK#9a`, and `$OK#a9` with a wrong sum */
  const SENT: seq<Byte> := [36, 79, 75, 35, 57, 97]
  const SPOILED: seq<Byte> := [36, 79, 75, 35, 97, 57]

  /** The frame of an answer is the known one, and `+` (43) or `-` (45) answers it, whether its sum is right or wrong. */
  lemma KnownFrame(r: Receiver)
    requires r.state.Idle?
    ensures Frame(ANSWER) == SENT
    ensures ReadBytes(r, SENT).replies == r.replies + [43] && ReadBytes(r, SENT).handled == r.handled + [ANSWER]
    ensures ReadBytes(r, SPOILED).replies == r.replies + [45] && ReadBytes(r, SPOILED).handled == r.handled
  {
    hide ReadBytes, CString, Sum, UnsignedSum;
    KnownSum(ANSWER);
    WholeString(ANSWER);
    assert SENT == [DOLLAR] + ANSWER + [HASH, 57, 97];
    assert SPOILED == [DOLLAR] + ANSWER + [HASH, 97, 57];
    ReadFrame(r, ANSWER, 57, 97);
    ReadFrame(r, ANSWER, 97, 57);
  }

  lemma KnownSum(ok: seq<Byte>)
    requires ok == [79, 75]
    ensures Sum(ok) == 154 == UnsignedSum(ok)
  {
    assert ok[..1] == [79] && ok[..1][..0] == [];
    assert Sum(ok[..1]) == 79 && UnsignedSum(ok[..1]) == 79;
  }

  /** Memory sent as hex digits in a packet arrives unchanged. */
  lemma MemoryRoundTrip(r: Receiver, mem: seq<Byte>)
    requires r.state.Idle? && |mem| <= 2047
    ensures var r' := ReadBytes(r, Frame(MemToHex(mem)));
            && r'.state.Idle? && r'.replies == r.replies + [PLUS]
            && |r'.handled| == |r.handled| + 1 && HexToMem(r'.handled[|r.handled|]) == mem
  {
    HexRoundTrip(mem);
    FrameRoundTrip(r, MemToHex(mem));
  }

  /** Position of the first `b`, or the length. */
  function IndexOf(s: seq<Byte>, b: Byte): (i: nat)
    ensures i <= |s| && b !in s[..i] && (i < |s| ==> s[i] == b)
  {
    if s == [] || s[0] == b then 0 else 1 + IndexOf(s[1..], b)
  }

  /** What becomes of a frame that reaches its second digit. */
  datatype Event = Accepted(payload: seq<Byte>) | Refused

  function Judge(payload: seq<Byte>, hi: Byte, lo: Byte): Event {
    if FromHex(hi) * 16 + FromHex(lo) == UnsignedSum(payload) % 256 then Accepted(payload) else Refused
  }

  /** The frames of a stream: from each `$` outside a frame to the first `#` behind it and two digits more.
      A frame whose data do not fit the buffer is given up at the first byte too many, without reply; one
      that the stream cuts off has no reply yet. */
  function Scan(s: seq<Byte>): seq<Event>
    decreases |s|
  {
    var i := IndexOf(s, DOLLAR);
    if i == |s| then [] else ScanFrame(s[i + 1..])
  }

  /** The same, for what follows a `$`. */
  function ScanFrame(rest: seq<Byte>): seq<Event>
    decreases |rest|
  {
    var j := IndexOf(rest, HASH);
    if j >= BUFFER then Scan(rest[BUFFER..])
    else if |rest| < j + 3 then []
    else [Judge(rest[..j], rest[j + 1], rest[j + 2])] + Scan(rest[j + 3..])
  }

  function Reply(e: Event): Byte {
    if e.Accepted? then PLUS else MINUS
  }

  function Replies(events: seq<Event>): seq<Byte> {
    if events == [] then [] else [Reply(events[0])] + Replies(events[1..])
  }

  function Payloads(events: seq<Event>): seq<seq<Byte>> {
    if events == [] then [] else Handed(events[0]) + Payloads(events[1..])
  }

  function Handed(e: Event): seq<seq<Byte>> {
    if e.Accepted? then [CString(e.payload)] else []
  }

  lemma {:induction false} ReadIdle(r: Receiver, s: seq<Byte>)
    requires r.state.Idle? && DOLLAR !in s
    ensures ReadBytes(r, s) == r
    decreases s
  {
    if s != [] {
      assert s[0] in s && DOLLAR !in s[1..];
      ReadIdle(r, s[1..]);
    }
  }

  /** A packet too long for the buffer leaves no trace. */
  lemma ReadOverlong(r: Receiver, s: seq<Byte>)
    requires r.state.Idle? && |s| == BUFFER && HASH !in s
    ensures var r' := ReadBytes(r, [DOLLAR] + s); r'.state.Idle? && r'.replies == r.replies && r'.handled == r.handled
  {
    var n := BUFFER - 1;
    var r1 := r.(line := [], state := GetLine);
    assert [DOLLAR] + s == [DOLLAR] + (s[..n] + [s[n]]);
    ReadConcat(r, [DOLLAR], s[..n] + [s[n]]);
    assert [DOLLAR][1..] == [] && ReadBytes(ReadByte(r, DOLLAR), []) == r1;
    ReadConcat(r1, s[..n], [s[n]]);
    assert HASH !in s[..n] && s[n] in s;
    ReadLine(r1, s[..n]);
    var r2 := r1.(line := [] + s[..n]);
    assert [s[n]][1..] == [] && ReadBytes(ReadByte(r2, s[n]), []) == ReadByte(r2, s[n]);
  }

  lemma ReadCutOff(r: Receiver, t: seq<Byte>)
    requires r.state.GetLine? && |t| < 3 && (t == [] || t[0] == HASH)
    ensures ReadBytes(r, t).replies == r.replies && ReadBytes(r, t).handled == r.handled
  {
    if t != [] {
      var r' := r.(state := Checksum1);
      assert ReadBytes(r, t) == ReadBytes(r', t[1..]);
      if |t| == 2 {
        assert t[1..][1..] == [] && ReadBytes(r', t[1..]) == ReadBytes(ReadByte(r', t[1]), []);
      }
    }
  }

  /** Nothing is answered before the second digit. */
  lemma ReadPartial(r: Receiver, s: seq<Byte>)
    requires r.state.Idle?
    requires var j := IndexOf(s, HASH); j < BUFFER && |s| < j + 3
    ensures var r' := ReadBytes(r, [DOLLAR] + s); r'.replies == r.replies && r'.handled == r.handled
  {
    var j := IndexOf(s, HASH);
    var r1 := r.(line := [], state := GetLine);
    var line, tail := s[..j], s[j..];
    assert s == line + tail && HASH !in line && (tail == [] || tail[0] == HASH);
    hide ReadBytes, ReadByte;
    ReadStart(r, s);
    ReadConcat(r1, line, tail);
    ReadLine(r1, line);
    ReadCutOff(r1.(line := r1.line + line), tail);
  }

  /** `r'` has answered some events more than `r`. */
  ghost predicate Answered(r: Receiver, r': Receiver, events: seq<Event>) {
    r'.replies == r.replies + Replies(events) && r'.handled == r.handled + Payloads(events)
  }

  lemma {:induction false} RepliesConcat(a: seq<Event>, b: seq<Event>)
    ensures Replies(a + b) == Replies(a) + Replies(b)
  {
    hide Reply;
    if a == [] {
      assert a + b == b;
    } else {
      assert (a + b)[1..] == a[1..] + b;
      RepliesConcat(a[1..], b);
    }
  }

  lemma Associate<T>(a: seq<T>, b: seq<T>, c: seq<T>)
    ensures (a + b) + c == a + (b + c)
  {
  }

  lemma {:induction false} PayloadsConcat(a: seq<Event>, b: seq<Event>)
    ensures Payloads(a + b) == Payloads(a) + Payloads(b)
  {
    hide Handed;
    if a == [] {
      assert a + b == b;
    } else {
      assert (a + b)[1..] == a[1..] + b;
      PayloadsConcat(a[1..], b);
      Associate(Handed(a[0]), Payloads(a[1..]), Payloads(b));
    }
  }

  lemma AnsweredOn(r: Receiver, r': Receiver, r'': Receiver, a: seq<Event>, b: seq<Event>)
    requires Answered(r, r', a) && Answered(r', r'', b)
    ensures Answered(r, r'', a + b)
  {
    hide Replies, Payloads;
    RepliesConcat(a, b);
    PayloadsConcat(a, b);
    Associate(r.replies, Replies(a), Replies(b));
    Associate(r.handled, Payloads(a), Payloads(b));
  }

  /** The receiver answers a frame as the scan judges it. */
  lemma ReadJudged(r: Receiver, payload: seq<Byte>, hi: Byte, lo: Byte)
    requires r.state.Idle? && |payload| <= BUFFER - 1 && HASH !in payload
    ensures var r' := ReadBytes(r, [DOLLAR] + payload + [HASH, hi, lo]);
            r'.state.Idle? && Answered(r, r', [Judge(payload, hi, lo)])
  {
    ReadFrame(r, payload, hi, lo);
    assert [Judge(payload, hi, lo)][1..] == [];
  }

  /** How a stream that begins with `$` splits into its first frame and the rest. */
  lemma SplitFrame(rest: seq<Byte>, j: nat)
    requires j + 3 <= |rest| && rest[j] == HASH
    ensures [DOLLAR] + rest == ([DOLLAR] + rest[..j] + [HASH, rest[j + 1], rest[j + 2]]) + rest[j + 3..]
  {
    assert rest == rest[..j] + rest[j..j + 3] + rest[j + 3..];
    assert rest[j..j + 3] == [HASH, rest[j + 1], rest[j + 2]];
  }

  lemma SplitOverlong(rest: seq<Byte>)
    requires BUFFER <= IndexOf(rest, HASH)
    ensures HASH !in rest[..BUFFER] && [DOLLAR] + rest == ([DOLLAR] + rest[..BUFFER]) + rest[BUFFER..]
  {
    assert rest[..BUFFER] <= rest[..IndexOf(rest, HASH)];
  }

  lemma FirstIndex(s: seq<Byte>, b: Byte)
    ensures var i := IndexOf(s, b); i <= |s| && b !in s[..i] && (i < |s| ==> s[i] == b) && (i == |s| ==> b !in s)
  {
    assert s[..|s|] == s;
  }

  lemma ScanFirst(s: seq<Byte>)
    ensures var i := IndexOf(s, DOLLAR);
            i <= |s| && Scan(s) == if i == |s| then [] else ScanFrame(s[i + 1..])
  {
    hide ScanFrame, IndexOf;
    FirstIndex(s, DOLLAR);
  }

  /** For every input stream, the replies sent and the packets handled are those of the frames in it. */
  lemma {:induction false} ReadsScan(r: Receiver, s: seq<Byte>)
    requires r.state.Idle?
    ensures Answered(r, ReadBytes(r, s), Scan(s))
    decreases |s|
  {
    hide ReadBytes, Answered, Scan, ScanFrame, IndexOf;
    var i := IndexOf(s, DOLLAR);
    FirstIndex(s, DOLLAR);
    ScanFirst(s);
    if i == |s| {
      ReadIdle(r, s);
      NoAnswer(r, r);
    } else {
      assert s == s[..i] + s[i..] && s[i..] == [DOLLAR] + s[i + 1..];
      ReadConcat(r, s[..i], s[i..]);
      ReadIdle(r, s[..i]);
      ReadsFrame(r, s[i + 1..]);
    }
  }

  lemma {:induction false} ReadsFrame(r: Receiver, rest: seq<Byte>)
    requires r.state.Idle?
    ensures Answered(r, ReadBytes(r, [DOLLAR] + rest), ScanFrame(rest))
    decreases |rest|
  {
    hide ReadBytes, Answered, Judge;
    var j := IndexOf(rest, HASH);
    if j >= BUFFER {
      var head, tail := [DOLLAR] + rest[..BUFFER], rest[BUFFER..];
      assert ScanFrame(rest) == Scan(tail);
      hide Scan, ScanFrame;
      SplitOverlong(rest);
      ReadOverlong(r, rest[..BUFFER]);
      ReadsScan(ReadBytes(r, head), tail);
      NoAnswer(r, ReadBytes(r, head));
      AnsweredRest(r, head, tail, [DOLLAR] + rest, [], Scan(tail));
      assert [] + Scan(tail) == Scan(tail);
    } else if |rest| < j + 3 {
      assert ScanFrame(rest) == [];
      hide Scan, ScanFrame;
      ReadPartial(r, rest);
      NoAnswer(r, ReadBytes(r, [DOLLAR] + rest));
    } else {
      var head, tail := [DOLLAR] + rest[..j] + [HASH, rest[j + 1], rest[j + 2]], rest[j + 3..];
      var e := Judge(rest[..j], rest[j + 1], rest[j + 2]);
      assert ScanFrame(rest) == [e] + Scan(tail);
      hide Scan, ScanFrame;
      SplitFrame(rest, j);
      ReadJudged(r, rest[..j], rest[j + 1], rest[j + 2]);
      ReadsScan(ReadBytes(r, head), tail);
      AnsweredRest(r, head, tail, [DOLLAR] + rest, [e], Scan(tail));
    }
  }

  lemma NoAnswer(r: Receiver, r': Receiver)
    requires r'.replies == r.replies && r'.handled == r.handled
    ensures Answered(r, r', [])
  {
  }

  lemma AnsweredRest(r: Receiver, head: seq<Byte>, tail: seq<Byte>, whole: seq<Byte>, a: seq<Event>, b: seq<Event>)
    requires whole == head + tail && Answered(r, ReadBytes(r, head), a)
    requires Answered(ReadBytes(r, head), ReadBytes(ReadBytes(r, head), tail), b)
    ensures Answered(r, ReadBytes(r, whole), a + b)
  {
    ReadConcat(r, head, tail);
    AnsweredOn(r, ReadBytes(r, head), ReadBytes(r, whole), a, b);
  }

  /** memtohex */
  method WriteHex(buf: array<Byte>, mem: array<Byte>, len: nat)
    requires buf != mem && len <= mem.Length && 2 * len < buf.Length
    modifies buf
    ensures buf[..2 * len] == MemToHex(mem[..len]) && buf[2 * len] == 0
  {
    for i := 0 to len
      invariant buf[..2 * i] == MemToHex(mem[..i])
    {
      var c := mem[i];
      buf[2 * i] := ToHex(c / 16);
      buf[2 * i + 1] := ToHex(c % 16);
      assert mem[..i + 1] == mem[..i] + [c];
      HexMore(mem[..i], c);
      assert buf[..2 * i + 2] == buf[..2 * i] + [ToHex(c / 16), ToHex(c % 16)];
    }
    buf[2 * len] := 0;
  }

  lemma {:induction false} HexMore(mem: seq<Byte>, c: Byte)
    ensures MemToHex(mem + [c]) == MemToHex(mem) + [ToHex(c / 16), ToHex(c % 16)]
  {
    if mem == [] {
      assert ([] + [c])[1..] == [];
    } else {
      assert (mem + [c])[1..] == mem[1..] + [c];
      HexMore(mem[1..], c);
    }
  }

  /** hextomem */
  method ReadHex(mem: array<Byte>, buf: array<Byte>, len: nat)
    requires buf != mem && len <= mem.Length && 2 * len <= buf.Length
    modifies mem
    ensures mem[..len] == HexToMem(buf[..2 * len])
  {
    for i := 0 to len
      invariant mem[..i] == HexToMem(buf[..2 * i])
    {
      mem[i] := FromHex(buf[2 * i]) * 16 + FromHex(buf[2 * i + 1]);
      assert buf[..2 * i + 2] == buf[..2 * i] + [buf[2 * i], buf[2 * i + 1]];
      MemMore(buf[..2 * i], buf[2 * i], buf[2 * i + 1]);
      assert mem[..i + 1] == mem[..i] + [mem[i]];
    }
  }

  lemma {:induction false} MemMore(buf: seq<Byte>, hi: Byte, lo: Byte)
    requires |buf| % 2 == 0
    ensures HexToMem(buf + [hi, lo]) == HexToMem(buf) + [FromHex(hi) * 16 + FromHex(lo)]
  {
    if buf == [] {
      assert ([] + [hi, lo])[2..] == [];
    } else {
      assert (buf + [hi, lo])[2..] == buf[2..] + [hi, lo];
      MemMore(buf[2..], hi, lo);
    }
  }

  lemma {:induction false} CStringEnd(s: seq<Byte>, n: nat)
    requires n < |s| && s[n] == 0 && 0 !in s[..n]
    ensures CString(s) == s[..n]
  {
    if n > 0 {
      assert s[0] == s[..n][0];
      assert s[1..][..n - 1] == s[..n][1..];
      CStringEnd(s[1..], n - 1);
    }
  }

  lemma {:induction false} CStringCut(s: seq<Byte>, n: nat)
    requires n < |s| && s[n] == 0
    ensures CString(s) == CString(s[..n])
  {
    if n > 0 {
      assert s[..n][1..] == s[1..][..n - 1];
      if s[0] != 0 { CStringCut(s[1..], n - 1); }
    }
  }

  /** Position of the byte that ends the sending of a packet: a `+`, or a byte that is negative as a char. */
  function StopAt(input: seq<Byte>): (i: nat)
    ensures i <= |input| && forall j | 0 <= j < i :: input[j] != PLUS && input[j] < 128
    ensures i < |input| ==> input[i] == PLUS || input[i] >= 128
  {
    if input == [] || input[0] == PLUS || input[0] >= 128 then 0 else 1 + StopAt(input[1..])
  }

  function Repeated(s: seq<Byte>, n: nat): seq<Byte> {
    if n == 0 then [] else Repeated(s, n - 1) + s
  }

  /** The bytes of a packet that hold the frame of a payload. */
  lemma FramedBytes(packet: seq<Byte>, payload: seq<Byte>)
    requires var n := |payload|;
             && n + 4 <= |packet| && packet[0] == DOLLAR && packet[1..n + 1] == payload && packet[n + 1] == HASH
             && packet[n + 2] == ToHex(Sum(payload) / 16 % 16) && packet[n + 3] == ToHex(Sum(payload) % 16)
    ensures packet[..|payload| + 4] == Frame(payload)
  {
    hide Sum, ToHex;
    var n := |payload|;
    assert packet[..n + 4] == [packet[0]] + packet[1..n + 1] + packet[n + 1..n + 4];
    assert packet[n + 1..n + 4] == [packet[n + 1], packet[n + 2], packet[n + 3]];
  }

  lemma Stops(input: seq<Byte>)
    ensures var i := StopAt(input);
            && i <= |input| && (forall j | 0 <= j < i :: input[j] != PLUS && input[j] < 128)
            && (i < |input| ==> input[i] == PLUS || input[i] >= 128)
  {
  }

  lemma RepeatedNone(s: seq<Byte>)
    ensures Repeated(s, 0) == []
  {
  }

  lemma RepeatedNext(s: seq<Byte>, n: nat)
    ensures Repeated(s, n + 1) == Repeated(s, n) + s
  {
  }

  class GdbServerTcp {
    var state: DecodeState
    const lineBuf: array<Byte>
    var index: nat
    var csum: nat
    const lastPacket: array<Byte>
    /** What was sent on the connection, and what was handed to handle_packet. */
    ghost var sent: seq<Byte>
    ghost var handled: seq<seq<Byte>>

    ghost predicate Valid()
      reads this, lineBuf
    {
      && lineBuf.Length == BUFFER && lastPacket.Length == BUFFER + 4 && lineBuf != lastPacket && index < BUFFER
      && (state.Checksum1? || state.Checksum2? ==> lineBuf[index] == 0)
    }

    ghost function View(): Receiver
      requires Valid()
      reads this, lineBuf
    {
      Receiver(state, lineBuf[..index], csum, sent, handled)
    }

    constructor ()
      ensures Valid() && fresh(lineBuf) && fresh(lastPacket)
      ensures state == Idle && sent == [] && handled == []
    {
      state, index, csum, sent, handled := Idle, 0, 0, [], [];
      lineBuf := new Byte[BUFFER](i => 0);
      lastPacket := new Byte[BUFFER + 4](i => 0);
    }

    /** read_byte */
    method Receive(ch: Byte)
      requires Valid()
      modifies this, lineBuf
      ensures Valid() && View() == ReadByte(old(View()), ch)
    {
      match state {
        case Idle =>
          if ch == DOLLAR {
            index := 0;
            state := GetLine;
          }
        case GetLine =>
          if ch == HASH {
            lineBuf[index] := 0;
            state := Checksum1;
            assert lineBuf[..index] == old(lineBuf[..index]);
          } else if index >= BUFFER - 1 {
            state := Idle;
          } else {
            lineBuf[index] := ch;
            index := index + 1;
            assert lineBuf[..index] == old(lineBuf[..index]) + [ch];
          }
        case Checksum1 =>
          csum := FromHex(ch) * 16;
          state := Checksum2;
        case Checksum2 =>
          csum := csum + FromHex(ch);
          Verify();
      }
    }

    /** The loop of handlesig over the bytes of one read: from the idle state, the replies sent and the
        packets handled are those of the frames in the bytes. */
    method ReceiveAll(buf: seq<Byte>)
      requires Valid()
      modifies this, lineBuf
      ensures Valid() && View() == ReadBytes(old(View()), buf)
      ensures old(state).Idle? ==> Answered(old(View()), View(), Scan(buf))
    {
      hide ReadByte, Answered;
      ghost var r := View();
      for i := 0 to |buf|
        invariant Valid() && View() == ReadBytes(r, buf[..i])
      {
        assert buf[..i + 1] == buf[..i] + [buf[i]];
        ReadConcat(r, buf[..i], [buf[i]]);
        assert [buf[i]][1..] == [] && ReadBytes(View(), [buf[i]]) == ReadBytes(ReadByte(View(), buf[i]), []);
        Receive(buf[i]);
      }
      assert buf[..|buf|] == buf;
      if r.state.Idle? {
        ReadsScan(r, buf);
      }
    }

    /** The check of the received sum and the reply to it. */
    method Verify()
      requires Valid() && state.Checksum2?
      modifies this`state, this`sent, this`handled
      ensures Valid() && state == Idle
      ensures if csum == Sum(lineBuf[..index]) % 256
              then sent == old(sent) + [PLUS] && handled == old(handled) + [CString(lineBuf[..index])]
              else sent == old(sent) + [MINUS] && handled == old(handled)
    {
      var sum := 0;
      for i := 0 to index
        invariant sum == Sum(lineBuf[..i])
      {
        assert lineBuf[..i + 1][..i] == lineBuf[..i];
        sum := sum + Signed(lineBuf[i]);
      }
      if csum != sum % 256 {
        sent := sent + [MINUS];
        state := Idle;
      } else {
        sent := sent + [PLUS];
        HandlePacket();
        state := Idle;
      }
    }

    /** handle_packet, as far as the codec goes: it takes the line as a C string and asks for DS_IDLE. */
    method HandlePacket()
      requires Valid() && lineBuf[index] == 0
      modifies this`handled
      ensures handled == old(handled) + [CString(lineBuf[..index])]
    {
      assert lineBuf[index] in lineBuf[..];
      var n := StringLength(lineBuf);
      CStringCut(lineBuf[..], index);
      assert lineBuf[..][..index] == lineBuf[..index];
      handled := handled + [lineBuf[..n]];
    }

    /** put_packet, for the bytes that the connection delivers until it closes. */
    method PutPacket(buf: array<Byte>, input: seq<Byte>) returns (error: bool, used: nat)
      requires Valid() && buf != lastPacket && 0 in buf[..] && |CString(buf[..])| <= BUFFER
      modifies this`sent, lastPacket
      ensures Valid()
      ensures var i := StopAt(input);
              && sent == old(sent) + Repeated(Frame(CString(buf[..])), i + 1)
              && error == !(i < |input| && input[i] == PLUS)
              && used == if i < |input| then i + 1 else i
    {
      hide Frame, CString, StopAt, Repeated;
      ghost var frame := Frame(CString(buf[..]));
      used := 0;
      error := false;
      ghost var i := StopAt(input);
      Stops(input);
      RepeatedNone(frame);
      while true
        invariant Valid() && used <= i && used <= |input| && !error
        invariant sent == old(sent) + Repeated(frame, used)
        decreases |input| - used
      {
        RepeatedNext(frame, used);
        Associate(old(sent), Repeated(frame, used), frame);
        var len := Format(buf);
        sent := sent + lastPacket[..len];
        if used == |input| {
          return true, used;
        }
        var ch := input[used];
        used := used + 1;
        if ch >= 128 {
          return true, used;
        }
        if ch == PLUS {
          break;
        }
      }
    }

    /** Write the frame of a C string into last_packet. */
    method Format(buf: array<Byte>) returns (n: nat)
      requires lastPacket.Length == BUFFER + 4 && buf != lastPacket && 0 in buf[..] && |CString(buf[..])| <= BUFFER
      modifies lastPacket
      ensures n <= lastPacket.Length && lastPacket[..n] == Frame(CString(buf[..]))
    {
      hide CString, Sum, ToHex;
      var len := StringLength(buf);
      lastPacket[0] := DOLLAR;
      var csum := CopySum(buf, len);
      lastPacket[len + 1] := HASH;
      lastPacket[len + 2] := ToHex(csum / 16 % 16);
      lastPacket[len + 3] := ToHex(csum % 16);
      n := len + 4;
      FramedBytes(lastPacket[..], buf[..len]);
    }

    /** Copy the payload behind the `$` and sum it up. */
    method CopySum(buf: array<Byte>, len: nat) returns (csum: int)
      requires buf != lastPacket && len <= buf.Length && len < lastPacket.Length
      modifies lastPacket
      ensures csum == Sum(buf[..len]) && lastPacket[1..len + 1] == buf[..len] && lastPacket[0] == old(lastPacket[0])
    {
      csum := 0;
      for i := 0 to len
        invariant csum == Sum(buf[..i]) && lastPacket[0] == old(lastPacket[0])
        invariant forall k | 0 <= k < i :: lastPacket[k + 1] == buf[k]
      {
        assert buf[..i + 1][..i] == buf[..i];
        lastPacket[i + 1] := buf[i];
        csum := csum + Signed(buf[i]);
      }
    }
  }

  /** strlen */
  method StringLength(buf: array<Byte>) returns (len: nat)
    requires 0 in buf[..]
    ensures len < buf.Length && buf[..len] == CString(buf[..])
  {
    len := 0;
    while buf[len] != 0
      invariant 0 <= len < buf.Length && 0 !in buf[..len] && 0 in buf[len..]
      decreases buf.Length - len
    {
      assert buf[len..] == [buf[len]] + buf[len + 1..];
      len := len + 1;
    }
    CStringEnd(buf[..], len);
    assert buf[..][..len] == buf[..len];
  }
}
