/** The binary form of intset_send and intset_recv: a 4-byte count, then
    each element as a 4-byte word, every word in network (big-endian) byte
    order as pq_sendint and pq_getmsgint write and read it. */
module Wire {
  import opened Common

  const WORD: nat := 0x1_0000_0000

  /** The 32-bit pattern of a C int, read as an unsigned number. */
  function Unsigned(x: int32): (u: nat)
    ensures u < WORD
    ensures x >= 0 ==> u == x
  {
    if x < 0 then x + WORD else x
  }

  /** The C int whose 32-bit pattern is u (two's complement). */
  function Signed(u: nat): (x: int32)
    requires u < WORD
    ensures Unsigned(x) == u
  {
    if u <= INT32_MAX then u else u - WORD
  }

  /** The four bytes pq_sendint(buf, x, 4) appends, most significant first. */
  function WordBytes(x: int32): (w: seq<byte>)
    ensures |w| == 4
  {
    var u := Unsigned(x);
    [u / 0x100 / 0x100 / 0x100, u / 0x100 / 0x100 % 0x100, u / 0x100 % 0x100, u % 0x100]
  }

  /** The int pq_getmsgint(buf, 4) returns for the four bytes w. */
  function WordValue(w: seq<byte>): int32
    requires |w| == 4
  {
    Signed(((w[0] as int * 0x100 + w[1]) * 0x100 + w[2]) * 0x100 + w[3])
  }

  /** Writing a word and reading it back gives the same int. */
  lemma WordRoundTrip(x: int32)
    ensures WordValue(WordBytes(x)) == x
  {
    var u := Unsigned(x);
    var q1 := u / 0x100;
    var q2 := q1 / 0x100;
    assert u == q1 * 0x100 + u % 0x100;
    assert q1 == q2 * 0x100 + q1 % 0x100;
    assert q2 == q2 / 0x100 * 0x100 + q2 % 0x100;
  }

  /** Reading four bytes and writing the int back gives the same bytes. */
  lemma BytesRoundTrip(w: seq<byte>)
    requires |w| == 4
    ensures WordBytes(WordValue(w)) == w
  {
    var h: int := w[0] as int * 0x100 + w[1];
    var m: int := h * 0x100 + w[2];
    var u: int := m * 0x100 + w[3];
    assert Unsigned(WordValue(w)) == u;
    assert u / 0x100 == m && u % 0x100 == w[3];
    assert m / 0x100 == h && m % 0x100 == w[2];
    assert h / 0x100 == w[0] && h % 0x100 == w[1];
  }

  /** The words of xs, in order. */
  function Words(xs: seq<int32>): (bs: seq<byte>)
    ensures |bs| == 4 * |xs|
  {
    if xs == [] then [] else Words(xs[..|xs| - 1]) + WordBytes(xs[|xs| - 1])
  }

  /** The message intset_send writes for the elements xs. */
  function Encode(xs: seq<int32>): (bs: seq<byte>)
    requires |xs| <= MAX
    ensures |bs| == 4 + 4 * |xs|
  {
    WordBytes(|xs|) + Words(xs)
  }

  /** The first n words of buf, read one after another. */
  function ReadWords(buf: seq<byte>, n: nat): (xs: seq<int32>)
    requires 4 * n <= |buf|
    ensures |xs| == n
    ensures forall i :: 0 <= i < n ==> xs[i] == WordValue(buf[4 * i .. 4 * i + 4])
  {
    if n == 0 then [] else ReadWords(buf, n - 1) + [WordValue(buf[4 * (n - 1) .. 4 * n])]
  }

  /** The count intset_recv stores, trusting the message: its first word. */
  function HeaderCount(buf: seq<byte>): int32
    requires |buf| >= 4
  {
    WordValue(buf[..4])
  }

  /** What the receiving side should make of buf: a message shorter than its
      header or its count is truncated, a count outside 0..MAX is refused,
      and otherwise the elements are the words after the header. Bytes after
      the last element are not looked at. */
  function Decode(buf: seq<byte>): (r: Result<seq<int32>>)
    ensures r.Ok? ==> |r.value| <= MAX && 4 + 4 * |r.value| <= |buf|
    ensures r.Ok? ==> r.value == ReadWords(buf[4..], |r.value|)
    ensures r.Ok? <==> |buf| >= 4 && 0 <= HeaderCount(buf) <= MAX && 4 + 4 * HeaderCount(buf) <= |buf|
  {
    if |buf| < 4 then Err(TruncatedInput)
    else
      var n := HeaderCount(buf);
      if n < 0 then Err(NegativeCount)
      else if n > MAX then Err(CapacityExceeded)
      else if |buf| < 4 + 4 * n then Err(TruncatedInput)
      else Ok(ReadWords(buf[4..], n))
  }

  /** Word i of Words(xs) is the encoding of xs[i]. */
  lemma {:induction false} WordsAt(xs: seq<int32>, i: nat)
    requires i < |xs|
    ensures Words(xs)[4 * i .. 4 * i + 4] == WordBytes(xs[i])
  {
    var init := xs[..|xs| - 1];
    assert Words(xs) == Words(init) + WordBytes(xs[|xs| - 1]);
    if i < |init| {
      WordsAt(init, i);
      assert Words(xs)[4 * i .. 4 * i + 4] == Words(init)[4 * i .. 4 * i + 4];
    }
  }

  /** The words of xs read back from the front of a buffer. */
  lemma ReadWordsOfWords(xs: seq<int32>, rest: seq<byte>)
    ensures ReadWords(Words(xs) + rest, |xs|) == xs
  {
    var buf := Words(xs) + rest;
    var ys := ReadWords(buf, |xs|);
    forall i | 0 <= i < |xs| ensures ys[i] == xs[i] {
      WordsAt(xs, i);
      assert buf[4 * i .. 4 * i + 4] == Words(xs)[4 * i .. 4 * i + 4];
      WordRoundTrip(xs[i]);
    }
  }

  /** The binary round trip: whatever intset_send writes, the receiving side
      reads back exactly, in order, even with bytes following the message. */
  lemma DecodeEncode(xs: seq<int32>, rest: seq<byte>)
    requires |xs| <= MAX
    ensures Decode(Encode(xs) + rest) == Ok(xs)
  {
    var buf := Encode(xs) + rest;
    assert buf[..4] == WordBytes(|xs|);
    WordRoundTrip(|xs|);
    assert buf[4..] == Words(xs) + rest;
    ReadWordsOfWords(xs, rest);
  }

  /** The converse: an accepted message begins with the encoding of what it
      decodes to, so nothing but the trailing bytes is ignored. */
  lemma EncodeDecode(buf: seq<byte>)
    requires Decode(buf).Ok?
    ensures buf[..4 + 4 * |Decode(buf).value|] == Encode(Decode(buf).value)
  {
    var xs := Decode(buf).value;
    var n := |xs|;
    HeaderOfDecode(buf);
    WordsOfReadWords(buf[4..], n);
    SplitAfterHeader(buf, n);
  }

  /** The header of an accepted message is the encoding of its count. */
  lemma HeaderOfDecode(buf: seq<byte>)
    requires Decode(buf).Ok?
    ensures buf[..4] == WordBytes(|Decode(buf).value|)
  {
    BytesRoundTrip(buf[..4]);
  }

  lemma SplitAfterHeader(buf: seq<byte>, n: nat)
    requires 4 + 4 * n <= |buf|
    ensures buf[..4 + 4 * n] == buf[..4] + buf[4..][..4 * n]
  {
  }

  /** The first n words of a buffer, written again, are its first 4n bytes. */
  lemma {:induction false} WordsOfReadWords(buf: seq<byte>, n: nat)
    requires 4 * n <= |buf|
    ensures Words(ReadWords(buf, n)) == buf[..4 * n]
  {
    if n > 0 {
      var xs := ReadWords(buf, n);
      var lo, hi := 4 * (n - 1), 4 * n;
      var w := buf[lo .. hi];
      assert xs == ReadWords(buf, n - 1) + [WordValue(w)];
      assert xs[..n - 1] == ReadWords(buf, n - 1);
      assert Words(xs) == Words(ReadWords(buf, n - 1)) + WordBytes(WordValue(w));
      WordsOfReadWords(buf, n - 1);
      BytesRoundTrip(w);
      SliceSplit(buf, lo, hi);
    }
  }

  lemma SliceSplit(buf: seq<byte>, lo: nat, hi: nat)
    requires lo <= hi <= |buf|
    ensures buf[..hi] == buf[..lo] + buf[lo .. hi]
  {
  }
}
