/** Messages on the DisplayPort AUX channel: a request is laid out in bytes, the bytes are packed into
    five data registers, and the reply is unpacked from the same registers. */
module AuxChannel {
  import opened Common

  type Byte = x: int | 0 <= x < 0x100

  const MAX_PAYLOAD := 16
  const BUFFER_SIZE := 20
  const REGISTERS := 5
  const ADDRESSES := 0x10_0000

  /** A request; a read carries no payload, only the number of bytes wanted. */
  datatype Request = Request(code: Byte, address: nat, size: nat, payload: seq<Byte>)

  datatype Kind = Write | Read | Unknown

  /** The kind does not depend on bit 2, which only says that more of the transaction follows. */
  function KindOf(code: Byte): (r: Kind)
    ensures r == Write <==> code == 0 || code == 2 || code == 4 || code == 6 || code == 8 || code == 0xc
    ensures r == Read <==> code == 1 || code == 5 || code == 9 || code == 0xd
  {
    var bare := if code / 4 % 2 == 1 then code - 4 else code;
    if bare == 0x8 || bare == 0x0 || bare == 0x2 then Write
    else if bare == 0x9 || bare == 0x1 then Read
    else Unknown
  }

  /** What a sink understands: a code and a 20 bit address, then, unless only the address was sent, the
      size and the bytes to write. */
  function Understood(bytes: seq<Byte>): Option<Request> {
    if |bytes| < 3 then None
    else
      var code := bytes[0] / 0x10;
      var address := (bytes[0] as int % 0x10) * 0x1_0000 + (bytes[1] as int) * 0x100 + bytes[2] as int;
      var size := if |bytes| == 3 then 0 else bytes[3] as int + 1;
      var payload := if |bytes| == 3 then [] else bytes[4..];
      if |payload| == if KindOf(code) == Write then size else 0
      then Some(Request(code, address, size, payload)) else None
  }

  lemma HeadReadsBack(code: Byte, address: U32)
    requires KindOf(code) != Unknown
    ensures var head := code * 0x10 % 0x100 + address / 0x1_0000 % 0x10;
            head < 0x100 && head / 0x10 == code && head == code as int * 0x10 + address / 0x1_0000 % 0x10
            && head % 0x10 * 0x1_0000 + address / 0x100 % 0x100 * 0x100 + address % 0x100 == address % ADDRESSES
  {
    var high, middle, low := address / 0x1_0000 % 0x10, address / 0x100 % 0x100, address % 0x100;
    assert code < 0x10;
    DivModUnique(code * 0x10, 0x100, 0, code * 0x10);
    DivModUnique(code * 0x10 + high, 0x10, code, high);
    var top := address / ADDRESSES;
    AddressDigits(address, top, address % ADDRESSES);
  }

  lemma AddressDigits(address: nat, top: nat, rest: nat)
    requires address == top * ADDRESSES + rest && rest < ADDRESSES
    ensures address / 0x1_0000 % 0x10 * 0x1_0000 + address / 0x100 % 0x100 * 0x100 + address % 0x100 == rest
  {
    var high, low := rest / 0x1_0000, rest % 0x1_0000;
    DivModUnique(address, 0x1_0000, top * 0x10 + high, low);
    DivModUnique(top * 0x10 + high, 0x10, top, high);
    var middle, last := low / 0x100, low % 0x100;
    DivModUnique(address, 0x100, (top * 0x10 + high) * 0x100 + middle, last);
    DivModUnique((top * 0x10 + high) * 0x100 + middle, 0x100, top * 0x10 + high, middle);
  }

  /** The bytes before the payload: code and address from the highest digit down, then the size less one. */
  predicate HeadLaidOut(bytes: seq<Byte>, code: Byte, address: U32, size: nat) {
    && |bytes| >= 3 && bytes[0] as int == code as int * 0x10 + address / 0x1_0000 % 0x10
    && bytes[1] == address / 0x100 % 0x100 && bytes[2] == address % 0x100
    && (size > 0 ==> |bytes| >= 4 && bytes[3] as int + 1 == size)
  }

  lemma RequestUnderstood(bytes: seq<Byte>, code: Byte, address: U32, size: nat)
    requires KindOf(code) != Unknown
    requires |bytes| == (if size > 0 then 4 else 3) + if KindOf(code) == Write then size else 0
    requires bytes[0] == code * 0x10 % 0x100 + address / 0x1_0000 % 0x10
    requires bytes[1] == address / 0x100 % 0x100 && bytes[2] == address % 0x100
    requires size > 0 ==> bytes[3] as int == size - 1
    ensures Understood(bytes)
            == Some(Request(code, address % ADDRESSES, size, if size > 0 then bytes[4..] else []))
    ensures HeadLaidOut(bytes, code, address, size)
  {
    HeadReadsBack(code, address);
  }

  /** Lays out a request. The caller's buffer may be missing; if not, it holds at least size bytes. It is
      accepted unless it is too long, of no known kind, or wants bytes without a buffer. The sink then
      understands this request, for the address without what is above its 20 bits. */
  method BuildTransmit(code: Byte, address: U32, size: nat, buffer: Option<seq<Byte>>)
    returns (transmit: array<Byte>, transmitSize: nat, ok: bool)
    requires buffer.Some? ==> size <= |buffer.value|
    ensures transmit.Length == 20 && transmitSize <= 20
    ensures ok <==> size <= 16 && (size > 0 ==> buffer.Some?) && KindOf(code) != Unknown
    ensures ok ==> HeadLaidOut(transmit[..transmitSize], code, address, size)
    ensures ok ==>
              var payload := if KindOf(code) == Write && size > 0 then buffer.value[..size] else [];
              Understood(transmit[..transmitSize]) == Some(Request(code, address % ADDRESSES, size, payload))
  {
    hide Understood, HeadLaidOut;
    transmit := new Byte[BUFFER_SIZE];
    transmitSize, ok := 0, false;
    if size > MAX_PAYLOAD {
      return;
    }
    transmitSize := if size > 0 then 4 else 3;
    if KindOf(code) == Write {
      transmitSize := transmitSize + size;
    }
    if size > 0 && buffer == None {
      return;
    }
    transmit[0] := code * 0x10 % 0x100 + address / 0x1_0000 % 0x10;
    transmit[1] := address / 0x100 % 0x100;
    transmit[2] := address % 0x100;
    transmit[3] := if size != 0 then size - 1 else 0;
    if KindOf(code) == Unknown {
      return;
    }
    ghost var head := [transmit[0], transmit[1], transmit[2], transmit[3]];
    if KindOf(code) == Write && buffer.Some? {
      for i := 0 to size
        invariant transmit[..4] == head && transmit[4..4 + i] == buffer.value[..i]
      {
        transmit[4 + i] := buffer.value[i];
      }
    }
    ok := true;
    assert head == transmit[..4];
    assert forall k :: 0 <= k < 4 && k < transmitSize ==> transmit[..transmitSize][k] == head[k];
    RequestUnderstood(transmit[..transmitSize], code, address, size);
    if size > 0 {
      assert transmit[..transmitSize][4..] == if KindOf(code) == Write then buffer.value[..size] else [];
    }
  }

  // ---------- the data registers ----------

  /** The bytes of a register, the first one highest. */
  function Word(a: Byte, b: Byte, c: Byte, d: Byte): U32 {
    (a as int) * 0x100_0000 + (b as int) * 0x1_0000 + (c as int) * 0x100 + d as int
  }

  function Lane(word: U32, k: nat): Byte
    requires k < 4
  {
    match k
    case 0 => word / 0x100_0000
    case 1 => word / 0x1_0000 % 0x100
    case 2 => word / 0x100 % 0x100
    case _ => word % 0x100
  }

  /** The first n bytes in a row of registers. */
  function Lanes(words: seq<U32>, n: nat): (r: seq<Byte>)
    requires n <= 4 * |words|
    ensures |r| == n
  {
    seq(n, i requires 0 <= i < n => Lane(words[i / 4], i % 4))
  }

  lemma LanesOfWord(words: seq<U32>, n: nat, q: nat)
    requires n <= 4 * |words| && 4 * q < n
    ensures Lanes(words, n)[4 * q] == Lane(words[q], 0)
    ensures 4 * q + 1 < n ==> Lanes(words, n)[4 * q + 1] == Lane(words[q], 1)
    ensures 4 * q + 2 < n ==> Lanes(words, n)[4 * q + 2] == Lane(words[q], 2)
    ensures 4 * q + 3 < n ==> Lanes(words, n)[4 * q + 3] == Lane(words[q], 3)
  {
    forall k | 0 <= k < 4 && 4 * q + k < n
      ensures Lanes(words, n)[4 * q + k] == Lane(words[q], k)
    {
      DivModUnique(4 * q + k, 4, q, k);
    }
  }

  lemma WordLanes(a: Byte, b: Byte, c: Byte, d: Byte)
    ensures var word := (a as int) * 0x100_0000 + (b as int) * 0x1_0000 + (c as int) * 0x100 + d as int;
            && word < 0x1_0000_0000 && word == Word(a, b, c, d)
            && Lane(word, 0) == a && Lane(word, 1) == b && Lane(word, 2) == c && Lane(word, 3) == d
  {
    var word: int, top: int, low: int := Word(a, b, c, d), (a as int) * 0x100 + b as int, (c as int) * 0x100 + d as int;
    DivModUnique(word, 0x100_0000, a, (b as int) * 0x1_0000 + low);
    DivModUnique(word, 0x1_0000, top, low);
    DivModUnique(top, 0x100, a, b);
    DivModUnique(word, 0x100, top * 0x100 + c as int, d);
    DivModUnique(top * 0x100 + c as int, 0x100, top, c);
  }

  /** Filling register q with the next bytes, zeros behind the last one. */
  lemma LanesGrow(words: seq<U32>, q: nat, bytes: seq<Byte>, n: nat, a: Byte, b: Byte, c: Byte, d: Byte)
    requires 4 * q < n <= |bytes| && n <= 4 * q + 4 && q < |words|
    requires Lanes(words, 4 * q) == bytes[..4 * q]
    requires a == bytes[4 * q] && (4 * q + 1 < n ==> b == bytes[4 * q + 1])
    requires (4 * q + 2 < n ==> c == bytes[4 * q + 2]) && (4 * q + 3 < n ==> d == bytes[4 * q + 3])
    ensures Lanes(words[q := Word(a, b, c, d)], n) == bytes[..n]
  {
    var words' := words[q := Word(a, b, c, d)];
    WordLanes(a, b, c, d);
    LanesOfWord(words', n, q);
    forall k | 0 <= k < n
      ensures Lanes(words', n)[k] == bytes[k]
    {
      if k < 4 * q {
        assert Lanes(words, 4 * q)[k] == bytes[..4 * q][k];
      }
    }
  }

  /** Packs the first size bytes; the registers behind them keep what they held. */
  method PackWords(transmit: seq<Byte>, size: nat, data: array<U32>)
    requires size <= |transmit| && size <= 4 * data.Length
    modifies data
    ensures Lanes(data[..], size) == transmit[..size]
    ensures forall k :: size <= 4 * k && k < data.Length ==> data[k] == old(data[k])
  {
    var i := 0;
    ghost var q := 0;
    while i < size
      invariant i <= size && (i == 4 * q || i == size)
      invariant Lanes(data[..], i) == transmit[..i]
      invariant forall k :: i <= 4 * k && k < data.Length ==> data[k] == old(data[k])
    {
      hide Lane, Lanes;
      var index := i / 4;
      assert index == q;
      ghost var words := data[..];
      ghost var a, b, c, d: Byte := transmit[i], 0, 0, 0;
      var word := (transmit[i] as int) * 0x100_0000;
      i := i + 1;
      if i < size {
        b := transmit[i];
        word := word + (transmit[i] as int) * 0x1_0000;
        i := i + 1;
      }
      if i < size {
        c := transmit[i];
        word := word + (transmit[i] as int) * 0x100;
        i := i + 1;
      }
      if i < size {
        d := transmit[i];
        word := word + transmit[i] as int;
        i := i + 1;
      }
      assert word == Word(a, b, c, d);
      data[index] := word;
      LanesGrow(words, q, transmit, i, a, b, c, d);
      assert data[..] == words[q := Word(a, b, c, d)];
      q := q + 1;
    }
  }

  /** Stores up to four bytes of a register from position from on, and says where the next ones go. */
  method UnpackWord(word: U32, receive: array<Byte>, from: nat, bytes: nat) returns (next: nat)
    requires from < bytes <= receive.Length
    modifies receive
    ensures next == if from + 4 <= bytes then from + 4 else bytes
    ensures forall k :: from <= k < next ==> receive[k] == Lane(word, k - from)
    ensures forall k :: 0 <= k < receive.Length && !(from <= k < next) ==> receive[k] == old(receive[k])
  {
    next := from;
    receive[next] := Lane(word, 0);
    next := next + 1;
    if next < bytes {
      receive[next] := Lane(word, 1);
      next := next + 1;
    }
    if next < bytes {
      receive[next] := Lane(word, 2);
      next := next + 1;
    }
    if next < bytes {
      receive[next] := Lane(word, 3);
      next := next + 1;
    }
  }

  /** Unpacks the reply: as many bytes as the hardware reports, cut to what the caller has room for, or
      none if the hardware cannot have that many. */
  method UnpackReply(data: seq<U32>, reported: nat, receive: array<Byte>, receiveSize: nat)
    returns (count: Option<nat>)
    requires |data| == REGISTERS && receiveSize <= receive.Length
    modifies receive
    ensures count == None <==> reported == 0 || reported > 20
    ensures count.Some? ==> count.value <= receiveSize && count.value <= reported
                            && (count.value == receiveSize || count.value == reported)
                            && receive[..count.value] == Lanes(data, count.value)
    ensures forall k :: (if count.Some? then count.value else 0) <= k < receive.Length ==>
              receive[k] == old(receive[k])
  {
    if reported == 0 || reported > BUFFER_SIZE {
      return None;
    }
    var bytes := if reported > receiveSize then receiveSize else reported;
    var i := 0;
    ghost var all, q := Lanes(data, bytes), 0;
    while i < bytes
      invariant i <= bytes && (i == 4 * q || i == bytes)
      invariant receive[..i] == all[..i]
      invariant forall k :: i <= k < receive.Length ==> receive[k] == old(receive[k])
    {
      hide Lane, Lanes;
      LanesOfWord(data, bytes, q);
      assert i / 4 == q;
      i := UnpackWord(data[i / 4], receive, i, bytes);
      q := q + 1;
    }
    return Some(bytes);
  }
}
