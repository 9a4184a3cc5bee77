/** Trades, the bounded texts inside them and their byte serialisation. */
module Trades {
  import opened Words

  type octet = b: int | 0 <= b < 256

  const TRADE_ID_CAPACITY: nat := 24
  const PRODUCT_ID_CAPACITY: nat := 20

  /** Each `char` of a text stands for one byte of the original. */
  function ByteOf(c: char): octet {
    c as int % 256
  }

  function Bytes(s: string): seq<octet> {
    seq(|s|, i requires 0 <= i < |s| => ByteOf(s[i]))
  }

  function Power2(k: nat): nat {
    if k == 0 then 1 else 2 * Power2(k - 1)
  }

  lemma Power2Byte(k: nat)
    ensures Power2(k + 8) == 256 * Power2(k)
  {
    assert Power2(k + 2) == 4 * Power2(k);
    assert Power2(k + 4) == 4 * Power2(k + 2);
    assert Power2(k + 6) == 4 * Power2(k + 4);
  }

  lemma Power2Word()
    ensures Power2(63) == 0x8000_0000_0000_0000 && Power2(64) == TWO64
  {
    Power2Byte(0);
    Power2Byte(8);
    Power2Byte(16);
    Power2Byte(24);
    Power2Byte(32);
    Power2Byte(40);
    Power2Byte(48);
    Power2Byte(56);
  }

  /** The `size` low bytes of `n`, least significant first. */
  function LittleEndian(n: nat, size: nat): (bytes: seq<octet>)
    ensures |bytes| == size
  {
    if size == 0 then [] else [n % 256] + LittleEndian(n / 256, size - 1)
  }

  function Power256(size: nat): nat {
    if size == 0 then 1 else 256 * Power256(size - 1)
  }

  lemma {:induction false} LittleEndianInjective(m: nat, n: nat, size: nat)
    requires m < Power256(size) && n < Power256(size)
    requires LittleEndian(m, size) == LittleEndian(n, size)
    ensures m == n
  {
    if size > 0 {
      var a, b := LittleEndian(m, size), LittleEndian(n, size);
      assert a[0] == m % 256 && b[0] == n % 256;
      assert a[1..] == LittleEndian(m / 256, size - 1) && b[1..] == LittleEndian(n / 256, size - 1);
      LittleEndianInjective(m / 256, n / 256, size - 1);
    }
  }

  /** Eight little-endian bytes determine the signed or unsigned word they were written for. */
  lemma WordInjective(m: int, n: int)
    requires LittleEndian(Wrap(m), 8) == LittleEndian(Wrap(n), 8)
    requires (0 <= m < TWO64 && 0 <= n < TWO64) || (INT64_MIN <= m <= INT64_MAX && INT64_MIN <= n <= INT64_MAX)
    ensures m == n
  {
    hide LittleEndian;
    assert Power256(4) == 0x1_0000_0000;
    assert Power256(8) == TWO64;
    LittleEndianInjective(Wrap(m), Wrap(n), 8);
  }

  datatype Side = Buy | Sell {
    function Code(): octet {
      if Buy? then 0 else 1
    }
  }

  /** A text of bounded length stored in place; `capacity` is a template parameter of the original. */
  class BoundedText {
    const data: array<char>
    var size: nat

    ghost predicate Valid()
      reads this
    {
      size <= data.Length
    }

    constructor (capacity: nat)
      ensures Valid() && fresh(data) && data.Length == capacity
      ensures View() == ""
    {
      data := new char[capacity](_ => 0 as char);
      size := 0;
    }

    function View(): string
      requires Valid()
      reads this, data
    {
      data[..size]
    }

    /** Takes the whole value or, when it is too long, nothing at all. */
    method Assign(value: string) returns (ok: bool)
      requires Valid()
      modifies this, data
      ensures Valid()
      ensures ok == (|value| <= data.Length)
      ensures View() == if ok then value else old(View())
    {
      if |value| > data.Length {
        return false;
      }
      size := |value|;
      for index := 0 to size
        invariant size == |value| <= data.Length
        invariant data[..index] == value[..index]
      {
        data[index] := value[index];
      }
      return true;
    }
  }

  /** A trade as it travels from the reader to the consumer; `enqueuedNs` is stamped on submission. */
  datatype Trade = Trade(tradeId: string, productId: string, price: i64, size: i64, side: Side, sourceTimeNs: u64,
                         enqueuedNs: u64)
  {
    predicate Valid() {
      |tradeId| <= TRADE_ID_CAPACITY && |productId| <= PRODUCT_ID_CAPACITY
    }

    function Serialized(): seq<octet> {
      Bytes(tradeId) + Bytes(productId) + Fields()
    }

    /** The 25 bytes of the numeric fields. */
    function Fields(): seq<octet> {
      LittleEndian(Wrap(price), 8) + LittleEndian(Wrap(size), 8) + LittleEndian(side.Code(), 1) +
      LittleEndian(Wrap(sourceTimeNs), 8)
    }

    /** What identifies a trade once it has been consumed: everything but the time it was enqueued. */
    function Logical(): Trade {
      this.(enqueuedNs := 0)
    }
  }

  lemma FieldsInjective(t: Trade, u: Trade)
    ensures t.Fields() == u.Fields() <==>
            t.price == u.price && t.size == u.size && t.side == u.side && t.sourceTimeNs == u.sourceTimeNs
  {
    if t.Fields() == u.Fields() {
      SameFields(t, u);
      hide LittleEndian, Wrap;
      WordInjective(t.price, u.price);
      WordInjective(t.size, u.size);
      WordInjective(t.sourceTimeNs, u.sourceTimeNs);
      assert Power256(1) == 256;
      LittleEndianInjective(t.side.Code(), u.side.Code(), 1);
    }
  }

  lemma SameFields(t: Trade, u: Trade)
    requires t.Fields() == u.Fields()
    ensures LittleEndian(Wrap(t.price), 8) == LittleEndian(Wrap(u.price), 8)
    ensures LittleEndian(Wrap(t.size), 8) == LittleEndian(Wrap(u.size), 8)
    ensures LittleEndian(t.side.Code(), 1) == LittleEndian(u.side.Code(), 1)
    ensures LittleEndian(Wrap(t.sourceTimeNs), 8) == LittleEndian(Wrap(u.sourceTimeNs), 8)
  {
    hide LittleEndian, Wrap;
    var a, b := t.Fields(), u.Fields();
    assert a[..8] == LittleEndian(Wrap(t.price), 8) && b[..8] == LittleEndian(Wrap(u.price), 8);
    assert a[8..16] == LittleEndian(Wrap(t.size), 8) && b[8..16] == LittleEndian(Wrap(u.size), 8);
    assert a[16..17] == LittleEndian(t.side.Code(), 1) && b[16..17] == LittleEndian(u.side.Code(), 1);
    assert a[17..] == LittleEndian(Wrap(t.sourceTimeNs), 8) && b[17..] == LittleEndian(Wrap(u.sourceTimeNs), 8);
  }

  /**
   * The serialisation frames neither text: it determines the numbers and the two texts run together, and nothing
   * more.
   */
  lemma SerializationExact(t: Trade, u: Trade)
    ensures t.Serialized() == u.Serialized() <==>
            && Bytes(t.tradeId) + Bytes(t.productId) == Bytes(u.tradeId) + Bytes(u.productId)
            && t.price == u.price && t.size == u.size && t.side == u.side && t.sourceTimeNs == u.sourceTimeNs
  {
    FieldsInjective(t, u);
    TailsEqual(Bytes(t.tradeId) + Bytes(t.productId), t.Fields(), Bytes(u.tradeId) + Bytes(u.productId), u.Fields());
  }

  lemma TailsEqual(a: seq<octet>, b: seq<octet>, c: seq<octet>, d: seq<octet>)
    requires |b| == |d|
    ensures a + b == c + d <==> a == c && b == d
  {
    if a + b == c + d {
      assert |a| == |c|;
      assert a == (a + b)[..|a|] && c == (c + d)[..|a|];
      assert b == (a + b)[|a|..] && d == (c + d)[|a|..];
    }
  }

  // ----- what stands where in the serialisation

  /** The number `size` bytes from `from` on make, the first counting ones, the next 256s and so on. */
  function NumberAt(bytes: seq<octet>, from: nat, size: nat): nat
    requires from + size <= |bytes|
  {
    if size == 0 then 0 else NumberAt(bytes, from, size - 1) + bytes[from + size - 1] * Power256(size - 1)
  }

  lemma {:induction false} PowerAdds(n: nat, size: nat)
    ensures 0 < Power256(size)
    ensures n % Power256(size + 1) == n % 256 + 256 * (n / 256 % Power256(size))
  {
    PowerPositive(size);
    var p, q := Power256(size), n / 256;
    assert Power256(size + 1) == 256 * p;
    SplitRemainder(n, q, n % 256, p);
  }

  lemma {:induction false} PowerPositive(size: nat)
    ensures 0 < Power256(size)
  {
    if size > 0 {
      PowerPositive(size - 1);
    }
  }

  lemma SplitRemainder(n: nat, q: nat, r: nat, p: nat)
    requires n == 256 * q + r && r < 256 && p > 0
    ensures n % (256 * p) == r + 256 * (q % p)
  {
    var k, m := q / p, q % p;
    assert q == k * p + m;
    assert n == k * (256 * p) + (256 * m + r);
    assert 256 * m + r < 256 * p;
    RemainderIs(n, k, 256 * p, 256 * m + r);
  }

  lemma RemainderIs(n: nat, k: nat, d: nat, r: nat)
    requires n == k * d + r && r < d
    ensures n % d == r
  {
    Euclid(n / d, n % d, k, r, d);
  }

  lemma Euclid(q: int, s: nat, k: int, r: nat, d: nat)
    requires q * d + s == k * d + r && s < d && r < d
    ensures s == r
  {
    assert (q - k) * d == r - s;
    assert (k - q) * d == -((q - k) * d);
    if q - k >= 1 {
      AtLeast(q - k, d);
    } else if k - q >= 1 {
      AtLeast(k - q, d);
    }
  }

  lemma AtLeast(m: int, d: nat)
    requires m >= 1
    ensures m * d >= d
  {
  }

  /** Reading a little-endian integer back, front to back. */
  lemma {:induction false} NumberOfTail(bytes: seq<octet>, size: nat)
    requires |bytes| == size + 1
    ensures NumberAt(bytes, 0, size + 1) == bytes[0] + 256 * NumberAt(bytes[1..], 0, size)
  {
    if size > 0 {
      var init := bytes[..size];
      NumberOfTail(init, size - 1);
      NumberPrefix(bytes, init, size);
      NumberPrefix(bytes[1..], init[1..], size - 1);
      var b, p := bytes[size] as int, Power256(size - 1);
      assert Power256(size) == 256 * p;
      assert b * (256 * p) == 256 * (b * p);
    } else {
      assert NumberAt(bytes, 0, 0) == 0;
    }
  }

  lemma {:induction false} NumberPrefix(bytes: seq<octet>, init: seq<octet>, size: nat)
    requires size <= |init| <= |bytes| && forall i :: 0 <= i < size ==> bytes[i] == init[i]
    ensures NumberAt(bytes, 0, size) == NumberAt(init, 0, size)
  {
    if size > 0 {
      NumberPrefix(bytes, init, size - 1);
    }
  }

  lemma {:induction false} LittleEndianReadsBack(n: nat, size: nat)
    ensures 0 < Power256(size) && NumberAt(LittleEndian(n, size), 0, size) == n % Power256(size)
  {
    PowerPositive(size);
    if size > 0 {
      var bytes := LittleEndian(n, size);
      LittleEndianReadsBack(n / 256, size - 1);
      NumberOfTail(bytes, size - 1);
      assert bytes[1..] == LittleEndian(n / 256, size - 1);
      PowerAdds(n, size - 1);
    }
  }

  lemma {:induction false} NumberInside(before: seq<octet>, bytes: seq<octet>, after: seq<octet>, size: nat)
    requires size <= |bytes|
    ensures NumberAt(before + bytes + after, |before|, size) == NumberAt(bytes, 0, size)
  {
    if size > 0 {
      NumberInside(before, bytes, after, size - 1);
    }
  }

  lemma WordInside(before: seq<octet>, n: int, after: seq<octet>)
    ensures NumberAt(before + LittleEndian(Wrap(n), 8) + after, |before|, 8) == Wrap(n)
  {
    LittleEndianReadsBack(Wrap(n), 8);
    hide LittleEndian, NumberAt;
    assert Power256(4) == 0x1_0000_0000;
    assert Power256(8) == TWO64;
    NumberInside(before, LittleEndian(Wrap(n), 8), after, 8);
  }

  /**
   * The bytes that are hashed, position by position: the two texts, the eight bytes of the price, the eight of the
   * size, a byte for the side, and the eight of the source time, each number with its low byte first.
   */
  lemma SerializationLayout(t: Trade)
    ensures var bytes, n := t.Serialized(), |t.tradeId| + |t.productId|;
            && |bytes| == n + 25
            && (forall i :: 0 <= i < |t.tradeId| ==> bytes[i] == t.tradeId[i] as int % 256)
            && (forall i :: 0 <= i < |t.productId| ==> bytes[|t.tradeId| + i] == t.productId[i] as int % 256)
            && NumberAt(bytes, n, 8) == Wrap(t.price)
            && NumberAt(bytes, n + 8, 8) == Wrap(t.size)
            && bytes[n + 16] == (if t.side == Buy then 0 else 1)
            && NumberAt(bytes, n + 17, 8) == t.sourceTimeNs
  {
    hide LittleEndian, NumberAt, Wrap;
    var ids := Bytes(t.tradeId) + Bytes(t.productId);
    var price, size := LittleEndian(Wrap(t.price), 8), LittleEndian(Wrap(t.size), 8);
    var side, time := LittleEndian(t.side.Code(), 1), LittleEndian(Wrap(t.sourceTimeNs), 8);
    SideByte(t.side.Code());
    SameWord(t.sourceTimeNs);
    WordInside(ids, t.price, size + side + time);
    WordInside(ids + price, t.size, side + time);
    WordInside(ids + price + size + side, t.sourceTimeNs, []);
    var bytes := t.Serialized();
    assert bytes == ids + price + (size + side + time);
    assert bytes == (ids + price) + size + (side + time);
    assert bytes == (ids + price + size + side) + time + [];
    assert bytes[|ids| + 16] == side[0];
  }

  lemma SideByte(code: octet)
    ensures LittleEndian(code, 1)[0] == code
  {
  }

  lemma SameWord(n: u64)
    ensures Wrap(n) == n
  {
  }
}
