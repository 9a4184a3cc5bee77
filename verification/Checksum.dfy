/** The 64-bit FNV-1a digest of trades: every step is a bijection, so no single changed byte can cancel out. */
module Checksums {
  import opened Words
  import opened Trades

  // The constants of 64-bit FNV-1a, draft-eastlake-fnv section 5.
  const OFFSET_BASIS: u64 := 14695981039346656037
  const PRIME: u64 := 1099511628211

  /** Exclusive or of two non-negative integers, bit by bit. */
  function Xor(a: nat, b: nat): nat {
    if a == 0 && b == 0 then 0 else 2 * Xor(a / 2, b / 2) + (a % 2 + b % 2) % 2
  }

  lemma {:induction false} XorCommutes(a: nat, b: nat)
    ensures Xor(a, b) == Xor(b, a)
  {
    if a != 0 || b != 0 {
      XorCommutes(a / 2, b / 2);
    }
  }

  lemma XorHalves(a: nat, b: nat)
    ensures Xor(a, b) / 2 == Xor(a / 2, b / 2) && Xor(a, b) % 2 == (a % 2 + b % 2) % 2
  {
  }

  lemma BitCancels(a: nat, b: nat)
    ensures ((a % 2 + b % 2) % 2 + b % 2) % 2 == a % 2
  {
  }

  lemma {:induction false} XorCancels(a: nat, b: nat)
    ensures Xor(Xor(a, b), b) == a
  {
    if a != 0 || b != 0 {
      hide Xor;
      XorCancels(a / 2, b / 2);
      XorHalves(a, b);
      XorHalves(Xor(a, b), b);
      BitCancels(a, b);
    }
  }

  lemma {:induction false} XorFits(a: nat, b: nat, bits: nat)
    requires a < Power2(bits) && b < Power2(bits)
    ensures Xor(a, b) < Power2(bits)
  {
    if bits > 0 {
      XorFits(a / 2, b / 2, bits - 1);
    }
  }

  lemma XorWord(a: u64, b: octet)
    ensures 0 <= Xor(a, b) < TWO64
  {
    Power2Word();
    XorFits(a, b, 64);
  }

  /** One step of FNV-1a: exclusive or, then multiplication that wraps. */
  function Step(hash: u64, b: octet): u64 {
    Wrap(Xor(hash, b) * PRIME)
  }

  function Fold(hash: u64, bytes: seq<octet>): u64 {
    if bytes == [] then hash else Step(Fold(hash, bytes[..|bytes| - 1]), bytes[|bytes| - 1])
  }

  // ----- every step is injective in the state and in the byte

  const PRIME_INVERSE: int := 14886173955864302971

  /** The prime is odd, so multiplication by it can be undone. */
  lemma MultiplicationUndone(x: u64)
    ensures Wrap(Wrap(x * PRIME) * PRIME_INVERSE) == x
  {
    var y := Wrap(x * PRIME);
    var q := (x * PRIME) / TWO64;
    var k := (PRIME * PRIME_INVERSE) / TWO64;
    assert PRIME * PRIME_INVERSE == k * TWO64 + 1;
    assert y == x * PRIME - q * TWO64;
    assert y * PRIME_INVERSE == x + (x * k - q * PRIME_INVERSE) * TWO64;
    WrapMultiple(x, x * k - q * PRIME_INVERSE);
  }

  lemma StepInjective(g: u64, h: u64, b: octet, c: octet)
    ensures Step(g, b) == Step(h, b) ==> g == h
    ensures Step(h, b) == Step(h, c) ==> b == c
  {
    XorWord(g, b);
    XorWord(h, b);
    XorWord(h, c);
    MultiplicationUndone(Xor(g, b));
    MultiplicationUndone(Xor(h, b));
    MultiplicationUndone(Xor(h, c));
    XorCancels(g, b);
    XorCancels(h, b);
    XorCancels(b, h);
    XorCancels(c, h);
    XorCommutes(h, b);
    XorCommutes(h, c);
  }

  lemma FoldEmpty(hash: u64)
    ensures Fold(hash, []) == hash
  {
  }

  lemma FoldSnoc(hash: u64, bytes: seq<octet>, b: octet)
    ensures Fold(hash, bytes + [b]) == Step(Fold(hash, bytes), b)
  {
    assert (bytes + [b])[..|bytes|] == bytes;
  }

  lemma {:induction false} FoldConcat(hash: u64, a: seq<octet>, b: seq<octet>)
    ensures Fold(hash, a + b) == Fold(Fold(hash, a), b)
  {
    if b == [] {
      assert a + b == a;
    } else {
      FoldConcat(hash, a, b[..|b| - 1]);
      assert (a + b)[..|a + b| - 1] == a + b[..|b| - 1];
    }
  }

  /** A common suffix never merges two digests: they are equal after it iff they were equal before it. */
  lemma {:induction false} FoldInjective(g: u64, h: u64, bytes: seq<octet>)
    ensures Fold(g, bytes) == Fold(h, bytes) <==> g == h
  {
    if bytes != [] {
      var init := bytes[..|bytes| - 1];
      FoldInjective(g, h, init);
      StepInjective(Fold(g, init), Fold(h, init), bytes[|bytes| - 1], 0);
    }
  }

  /** Two byte streams of equal length that differ in exactly one place have different digests. */
  lemma OneByteChangesDigest(hash: u64, a: seq<octet>, b: seq<octet>, i: nat)
    requires |a| == |b| && i < |a| && a[i] != b[i]
    requires forall k :: 0 <= k < |a| && k != i ==> a[k] == b[k]
    ensures Fold(hash, a) != Fold(hash, b)
  {
    var before, after := a[..i], a[i + 1..];
    assert a == before + [a[i]] + after && b == before + [b[i]] + after;
    FoldConcat(hash, before + [a[i]], after);
    FoldConcat(hash, before + [b[i]], after);
    var h := Fold(hash, before);
    assert (before + [a[i]])[..i] == before == (before + [b[i]])[..i];
    StepInjective(h, h, a[i], b[i]);
    FoldInjective(Step(h, a[i]), Step(h, b[i]), after);
  }

  // ----- the loops

  method HashBytes(hash: u64, value: string) returns (result: u64)
    ensures result == Fold(hash, Bytes(value))
  {
    hide Fold, Xor, Wrap;
    FoldEmpty(hash);
    result := hash;
    assert Bytes(value[..0]) == [];
    for index := 0 to |value|
      invariant result == Fold(hash, Bytes(value[..index]))
    {
      assert Bytes(value[..index + 1]) == Bytes(value[..index]) + [ByteOf(value[index])];
      FoldSnoc(hash, Bytes(value[..index]), ByteOf(value[index]));
      XorWord(result, ByteOf(value[index]));
      result := Xor(result, ByteOf(value[index]));
      result := Wrap(result * PRIME);
    }
    assert value[..|value|] == value;
  }

  /** Hashes the low byte of `bits` first: masking and shifting by eight bits are remainder and quotient by 256. */
  method HashInteger(hash: u64, value: nat, size: nat) returns (result: u64)
    ensures result == Fold(hash, LittleEndian(value, size))
  {
    hide Fold, Xor, Wrap;
    FoldEmpty(hash);
    result := hash;
    var bits := value;
    ghost var done: seq<octet> := [];
    for index := 0 to size
      invariant LittleEndian(value, size) == done + LittleEndian(bits, size - index)
      invariant result == Fold(hash, done)
    {
      XorWord(result, bits % 256);
      FoldSnoc(hash, done, bits % 256);
      result := Xor(result, bits % 256);
      result := Wrap(result * PRIME);
      done := done + [bits % 256];
      bits := bits / 256;
    }
    assert done + [] == done;
  }

  /** The digest of one trade; the enqueue time is left out. */
  method UpdateChecksum(hash: u64, value: Trade) returns (result: u64)
    ensures result == Fold(hash, value.Serialized())
  {
    hide Fold, LittleEndian, Wrap;
    var texts := Bytes(value.tradeId) + Bytes(value.productId);
    ghost var price, size := LittleEndian(Wrap(value.price), 8), LittleEndian(Wrap(value.size), 8);
    ghost var side, time := LittleEndian(value.side.Code(), 1), LittleEndian(Wrap(value.sourceTimeNs), 8);
    result := HashBytes(hash, value.tradeId);
    result := HashBytes(result, value.productId);
    result := HashInteger(result, Wrap(value.price), 8);
    result := HashInteger(result, Wrap(value.size), 8);
    result := HashInteger(result, value.side.Code(), 1);
    result := HashInteger(result, Wrap(value.sourceTimeNs), 8);
    FoldConcat(hash, Bytes(value.tradeId), Bytes(value.productId));
    FoldConcat(hash, texts, price);
    FoldConcat(hash, texts + price, size);
    FoldConcat(hash, texts + price + size, side);
    FoldConcat(hash, texts + price + size + side, time);
    assert value.Serialized() == texts + price + size + side + time;
  }

  /** The bytes of a whole run, in the order the trades were consumed. */
  function Stream(trades: seq<Trade>): seq<octet>
  {
    if trades == [] then [] else Stream(trades[..|trades| - 1]) + trades[|trades| - 1].Serialized()
  }

  /** The checksum a consumer has after these trades. */
  function Checksum(trades: seq<Trade>): u64
  {
    Fold(OFFSET_BASIS, Stream(trades))
  }

  lemma ChecksumSnoc(trades: seq<Trade>, t: Trade)
    ensures Checksum(trades + [t]) == Fold(Checksum(trades), t.Serialized())
  {
    assert (trades + [t])[..|trades|] == trades;
    FoldConcat(OFFSET_BASIS, Stream(trades), t.Serialized());
  }

  lemma {:induction false} ChecksumConcat(before: seq<Trade>, after: seq<Trade>)
    ensures Checksum(before + after) == Fold(Checksum(before), Stream(after))
  {
    if after == [] {
      assert before + after == before;
    } else {
      var init, last := after[..|after| - 1], after[|after| - 1];
      ChecksumConcat(before, init);
      assert before + after == before + init + [last];
      ChecksumSnoc(before + init, last);
      FoldConcat(Checksum(before), Stream(init), last.Serialized());
    }
  }

  /**
   * Replacing one trade of a run by another changes the final checksum iff it changes the running one at that point.
   */
  lemma ReplacedTradeDetected(before: seq<Trade>, t: Trade, u: Trade, after: seq<Trade>)
    ensures Checksum(before + [t] + after) == Checksum(before + [u] + after) <==>
            Fold(Checksum(before), t.Serialized()) == Fold(Checksum(before), u.Serialized())
  {
    ChecksumConcat(before + [t], after);
    ChecksumConcat(before + [u], after);
    ChecksumSnoc(before, t);
    ChecksumSnoc(before, u);
    FoldInjective(Checksum(before + [t]), Checksum(before + [u]), Stream(after));
  }

  /** One changed byte in one trade of a run always changes the checksum of the run. */
  lemma OneByteOfOneTrade(before: seq<Trade>, t: Trade, u: Trade, after: seq<Trade>, i: nat)
    requires |t.Serialized()| == |u.Serialized()| && i < |t.Serialized()|
    requires forall k :: 0 <= k < |t.Serialized()| ==> (t.Serialized()[k] == u.Serialized()[k] <==> k != i)
    ensures Checksum(before + [t] + after) != Checksum(before + [u] + after)
  {
    ReplacedTradeDetected(before, t, u, after);
    OneByteChangesDigest(Checksum(before), t.Serialized(), u.Serialized(), i);
  }

  /** A buy that becomes a sell is such a change. */
  lemma FlippedSideDetected(before: seq<Trade>, t: Trade, after: seq<Trade>)
    ensures Checksum(before + [t.(side := Buy)] + after) != Checksum(before + [t.(side := Sell)] + after)
  {
    var b, s := t.(side := Buy), t.(side := Sell);
    var i := |t.tradeId| + |t.productId| + 16;
    OneByteOfOneTrade(before, b, s, after, i);
  }

  /**
   * Without framing between the texts, moving characters from the end of one to the start of the other goes
   * unnoticed.
   */
  lemma IdentifiersNotFramed(before: seq<Trade>, t: Trade, u: Trade, after: seq<Trade>)
    requires t.tradeId + t.productId == u.tradeId + u.productId
    requires t.price == u.price && t.size == u.size && t.side == u.side && t.sourceTimeNs == u.sourceTimeNs
    ensures Checksum(before + [t] + after) == Checksum(before + [u] + after)
  {
    BytesConcat(t.tradeId, t.productId);
    BytesConcat(u.tradeId, u.productId);
    SerializationExact(t, u);
    ReplacedTradeDetected(before, t, u, after);
  }

  lemma BytesConcat(a: string, b: string)
    ensures Bytes(a) + Bytes(b) == Bytes(a + b)
  {
  }

  /** Every trade with a product has such a twin, as long as its trade id has room for one more character. */
  lemma EveryTradeHasATwin(before: seq<Trade>, t: Trade, after: seq<Trade>)
    requires t.Valid() && t.productId != "" && |t.tradeId| < TRADE_ID_CAPACITY
    ensures exists u: Trade :: u.Valid() && u != t && Checksum(before + [t] + after) == Checksum(before + [u] + after)
  {
    var u := t.(tradeId := t.tradeId + [t.productId[0]], productId := t.productId[1..]);
    assert t.tradeId + t.productId == u.tradeId + u.productId;
    IdentifiersNotFramed(before, t, u, after);
    assert u.Valid() && u != t;
  }

  /** The checksum does not see when trades were enqueued. */
  lemma {:induction false} ChecksumIsLogical(s: seq<Trade>, t: seq<Trade>)
    requires |s| == |t|
    requires forall i :: 0 <= i < |s| ==> s[i].Logical() == t[i].Logical()
    ensures Checksum(s) == Checksum(t)
  {
    if s != [] {
      var i := |s| - 1;
      ChecksumIsLogical(s[..i], t[..i]);
      assert s == s[..i] + [s[i]] && t == t[..i] + [t[i]];
      ChecksumSnoc(s[..i], s[i]);
      ChecksumSnoc(t[..i], t[i]);
      assert s[i].Serialized() == s[i].Logical().Serialized() == t[i].Logical().Serialized() == t[i].Serialized();
    }
  }

  // ----- published values

  lemma {:induction false} XorZero(a: nat)
    ensures Xor(a, 0) == a
  {
    if a != 0 {
      XorZero(a / 2);
    }
  }

  /**
   * 0x25, the last byte of the offset basis, with the letter a, 0x61, is 0x44; the bytes before it stay as they are.
   */
  lemma LastByteWithA()
    ensures Xor(OFFSET_BASIS, 97) == OFFSET_BASIS - 0x25 + 0x44
  {
    hide Xor;
    var n := OFFSET_BASIS as int / 128;
    XorZero(n);
    XorHalves(n * 2 + 0, 1);
    XorHalves(OFFSET_BASIS as int / 32, 3);
    XorHalves(OFFSET_BASIS as int / 16, 6);
    XorHalves(OFFSET_BASIS as int / 8, 12);
    XorHalves(OFFSET_BASIS as int / 4, 24);
    XorHalves(OFFSET_BASIS as int / 2, 48);
    XorHalves(OFFSET_BASIS, 97);
  }

  /** The digests of the empty text and of the letter a, as published for 64-bit FNV-1a. */
  lemma PublishedValues()
    ensures Fold(OFFSET_BASIS, []) == 0xcbf29ce484222325
    ensures Fold(OFFSET_BASIS, Bytes("a")) == 0xaf63dc4c8601ec8c
  {
    hide Xor;
    FoldEmpty(OFFSET_BASIS);
    FoldSnoc(OFFSET_BASIS, [], 97);
    LastByteWithA();
    assert Bytes("a") == [] + [97];
    hide Fold;
  }
}
