/** Incremental MD5 around an arbitrary block transform (public/md5.cpp; RFC 1321). */
module Md5Digests {

  import opened Bytes
  import opened Division

  type word = x: int | 0 <= x < 0x1_0000_0000

  const TWO_32 := 0x1_0000_0000
  const TWO_64 := 0x1_0000_0000_0000_0000
  const BLOCK_SIZE := 64

  datatype State = State(a: word, b: word, c: word, d: word)

  /** The initial state of section 3.3. */
  const INITIAL_STATE := State(0x67452301, 0xefcdab89, 0x98badcfe, 0x10325476)

  type Transform = (State, seq<byte>) -> State

  // ------------------------------------------------------------ numbers as bytes

  function Word(x: int): word { x % TWO_32 }

  function WordBytes(w: word): (s: seq<byte>)
    ensures |s| == 4
  {
    [(w % 256) as byte, (w / 256 % 256) as byte, (w / 65536 % 256) as byte, (w / 16777216) as byte]
  }

  function BytesWord(s: seq<byte>): word
    requires |s| == 4
  {
    s[0] as int + 256 * s[1] as int + 65536 * s[2] as int + 16777216 * s[3] as int
  }

  lemma WordRoundTrip(w: word)
    ensures BytesWord(WordBytes(w)) == w
  {
    assert w / 65536 == w / 256 / 256;
    assert w / 16777216 == w / 65536 / 256;
  }

  /** The bytes written for the low 32 bits of a number are its low bytes, lowest first. */
  lemma WordSpells(w: word, v: int)
    requires w == v % TWO_32
    ensures SpellsLow32(WordBytes(w), 0, v)
  {
    var q := v / TWO_32;
    AddTurns(w, 256, q * 16777216);
    AddTurns(w / 256, 256, q * 65536);
    AddTurns(w, 65536, q * 65536);
    AddTurns(w / 65536, 256, q * 256);
    AddTurns(w, 16777216, q * 256);
    AddTurns(w / 16777216, 256, q);
    DivModUnique(w / 16777216, 256, 0, w / 16777216);
  }

  /** Little-endian words one after another. */
  function LittleEndian(ws: seq<word>): (s: seq<byte>)
    ensures |s| == 4 * |ws|
  {
    if ws == [] then [] else WordBytes(ws[0]) + LittleEndian(ws[1..])
  }

  /** Each word of an encoded sequence stands in four bytes of its own. */
  lemma {:induction false} LittleEndianSpells(ws: seq<word>, i: nat, v: int)
    requires i < |ws| && ws[i] == v % TWO_32
    ensures SpellsLow32(LittleEndian(ws), 4 * i, v)
  {
    hide SpellsLow32, WordBytes;
    var d := LittleEndian(ws);
    if i == 0 {
      WordSpells(ws[0], v);
      SpellsWithin(d, WordBytes(ws[0]), 0, 0, v);
    } else {
      LittleEndianSpells(ws[1..], i - 1, v);
      SpellsWithin(d, LittleEndian(ws[1..]), 4, 4 * (i - 1), v);
    }
  }

  function Words(s: seq<byte>): (ws: seq<word>)
    requires |s| % 4 == 0
    ensures |ws| == |s| / 4
  {
    if s == [] then [] else [BytesWord(s[..4])] + Words(s[4..])
  }

  lemma {:induction false} WordsRoundTrip(ws: seq<word>)
    ensures Words(LittleEndian(ws)) == ws
  {
    if ws != [] {
      WordRoundTrip(ws[0]);
      assert LittleEndian(ws)[..4] == WordBytes(ws[0]) && LittleEndian(ws)[4..] == LittleEndian(ws[1..]);
      WordsRoundTrip(ws[1..]);
    }
  }

  lemma {:induction false} LittleEndianSnoc(ws: seq<word>, w: word)
    ensures LittleEndian(ws + [w]) == LittleEndian(ws) + WordBytes(w)
  {
    if ws != [] {
      assert (ws + [w])[1..] == ws[1..] + [w];
      LittleEndianSnoc(ws[1..], w);
    } else {
      assert [w][1..] == [];
    }
  }

  lemma {:induction false} WordsSnoc(s: seq<byte>, t: seq<byte>)
    requires |s| % 4 == 0 && |t| == 4
    ensures Words(s + t) == Words(s) + [BytesWord(t)]
    decreases |s|
  {
    if s != [] {
      assert (s + t)[..4] == s[..4] && (s + t)[4..] == s[4..] + t;
      WordsSnoc(s[4..], t);
    } else {
      assert s + t == t && t[..4] == t && t[4..] == [];
    }
  }

  /** `encode`: words into bytes. */
  method Encode(output: array<byte>, input: seq<word>)
    requires output.Length == 4 * |input|
    modifies output
    ensures output[..] == LittleEndian(input)
  {
    var i, j := 0, 0;
    while j < output.Length
      invariant 0 <= i <= |input| && j == 4 * i
      invariant output[..j] == LittleEndian(input[..i])
    {
      LittleEndianSnoc(input[..i], input[i]);
      assert input[..i] + [input[i]] == input[..i + 1];
      hide LittleEndian, WordBytes;
      EncodeWord(output, j, input[i]);
      i, j := i + 1, j + 4;
    }
    assert input[..i] == input && output[..j] == output[..];
  }

  /** The body of the encoding loop: one word. */
  method EncodeWord(output: array<byte>, j: nat, w: word)
    requires j + 4 <= output.Length
    modifies output
    ensures output[..j + 4] == old(output[..j]) + WordBytes(w)
  {
    DivModUnique(w / 16777216, 256, 0, w / 16777216);
    var b0, b1, b2, b3 := (w % 256) as byte, (w / 256 % 256) as byte, (w / 65536 % 256) as byte, (w / 16777216 % 256) as byte;
    assert WordBytes(w) == [b0, b1, b2, b3];
    hide WordBytes;
    output[j] := b0;
    output[j + 1] := b1;
    output[j + 2] := b2;
    output[j + 3] := b3;
    assert output[j..j + 4] == [b0, b1, b2, b3];
    assert output[..j + 4] == output[..j] + output[j..j + 4];
  }

  /** `decode`: bytes into words. */
  method Decode(input: seq<byte>) returns (output: seq<word>)
    requires |input| % 4 == 0
    ensures output == Words(input)
  {
    output := [];
    var j := 0;
    while j < |input|
      invariant 0 <= j <= |input| && j % 4 == 0
      invariant output == Words(input[..j])
    {
      WordsSnoc(input[..j], input[j..j + 4]);
      assert input[..j] + input[j..j + 4] == input[..j + 4];
      output := output + [input[j] as int + 256 * input[j + 1] as int + 65536 * input[j + 2] as int + 16777216 * input[j + 3] as int];
      j := j + 4;
    }
    assert input[..j] == input;
  }

  // ------------------------------------------------------------ the one-shot digest

  /** The transform run over a whole number of blocks. */
  function Fold(s: State, data: seq<byte>, transform: Transform): State
    requires |data| % BLOCK_SIZE == 0
    decreases |data|
  {
    if data == [] then s else Fold(transform(s, data[..BLOCK_SIZE]), data[BLOCK_SIZE..], transform)
  }

  lemma {:induction false} FoldSplits(s: State, x: seq<byte>, y: seq<byte>, transform: Transform)
    requires |x| % BLOCK_SIZE == 0 && |y| % BLOCK_SIZE == 0
    ensures Fold(s, x + y, transform) == Fold(Fold(s, x, transform), y, transform)
    decreases |x|
  {
    if x == [] {
      assert x + y == y;
    } else {
      assert (x + y)[..BLOCK_SIZE] == x[..BLOCK_SIZE] && (x + y)[BLOCK_SIZE..] == x[BLOCK_SIZE..] + y;
      FoldSplits(transform(s, x[..BLOCK_SIZE]), x[BLOCK_SIZE..], y, transform);
    }
  }

  /** The complete blocks of a message, and the bytes after them. */
  function Whole(m: seq<byte>): (w: seq<byte>)
    ensures |w| % BLOCK_SIZE == 0
  {
    m[..|m| - |m| % BLOCK_SIZE]
  }

  function Tail(m: seq<byte>): (t: seq<byte>)
    ensures |t| == |m| % BLOCK_SIZE
  {
    m[|m| - |m| % BLOCK_SIZE..]
  }

  /** A whole number of blocks has no tail. */
  lemma WholeIsAll(m: seq<byte>)
    requires |m| % BLOCK_SIZE == 0
    ensures Whole(m) == m
  {
  }

  lemma NothingLeft(s: State, transform: Transform)
    ensures Whole([]) == [] && Tail([]) == [] && Fold(s, [], transform) == s
  {
  }

  function Zeros(n: nat): (z: seq<byte>)
    ensures |z| == n
  {
    seq(n, _ => 0)
  }

  /** Section 3.1: a one bit, then zeros up to 56 bytes modulo 64. */
  function Padding(n: nat): (p: seq<byte>)
    ensures 1 <= |p| <= 64 && (n + |p|) % BLOCK_SIZE == 56
  {
    [0x80] + Zeros((55 - n) % 64)
  }

  /** The padding bytes that `finalize` takes a prefix of. */
  const PADDING: seq<byte> := [0x80] + Zeros(63)

  /** The prefix `finalize` takes is the padding of section 3.1. */
  lemma PaddingPrefix(n: nat)
    ensures var index := n % BLOCK_SIZE;
            |PADDING| == 64 && PADDING[..if index < 56 then 56 - index else 120 - index] == Padding(n)
  {
    var index := n % BLOCK_SIZE;
    assert (55 - n) % 64 == if index < 56 then 55 - index else 119 - index;
  }

  /** Section 3.2: the length in bits before padding, modulo 2 to the 64, low word first. */
  function LengthBytes(n: nat): (s: seq<byte>)
    ensures |s| == 8
  {
    var bits := 8 * n % TWO_64;
    LittleEndian([bits % TWO_32, bits / TWO_32])
  }

  function Padded(m: seq<byte>): (p: seq<byte>)
    ensures |p| % BLOCK_SIZE == 0 && m <= p
  {
    var p := m + Padding(|m|);
    DivModUnique(|p| + 8, BLOCK_SIZE, |p| / BLOCK_SIZE + 1, 0);
    p + LengthBytes(|m|)
  }

  /**
   The padded message, byte by byte: the message, one byte 128, zeros, and the number of
   bits of the message in the last eight bytes, low byte first.  It has as few zeros as
   make it a whole number of blocks.
   */
  ghost predicate IsPadded(p: seq<byte>, m: seq<byte>) {
    && |p| % 64 == 0 && |m| + 9 <= |p| <= |m| + 72
    && p[..|m|] == m && p[|m|] == 128
    && (forall i :: |m| < i < |p| - 8 ==> p[i] == 0)
    && SpellsLow32(p, |p| - 8, 8 * |m|) && SpellsLow32(p, |p| - 4, 8 * |m| / 0x1_0000_0000)
  }

  lemma PaddedIsPadded(m: seq<byte>)
    ensures IsPadded(Padded(m), m)
  {
    hide LengthBytes, Padding, SpellsLow32;
    LengthSpells(|m|);
    PaddingBytes(|m|);
    var p, b := Padded(m), LengthBytes(|m|);
    assert p == m + Padding(|m|) + b;
    SpellsWithin(p, b, |p| - 8, 0, 8 * |m|);
    SpellsWithin(p, b, |p| - 8, 4, 8 * |m| / TWO_32);
  }

  lemma PaddingBytes(n: nat)
    ensures Padding(n)[0] == 128 && forall i :: 0 < i < |Padding(n)| ==> Padding(n)[i] == 0
  {
  }

  lemma SpellsWithin(p: seq<byte>, b: seq<byte>, at: nat, k: nat, v: int)
    requires at + |b| <= |p| && p[at..at + |b|] == b && SpellsLow32(b, k, v)
    ensures SpellsLow32(p, at + k, v)
  {
    assert forall i :: 0 <= i < |b| ==> p[at + i] == b[i];
  }

  lemma LengthSpells(n: nat)
    ensures SpellsLow32(LengthBytes(n), 0, 8 * n) && SpellsLow32(LengthBytes(n), 4, 8 * n / 0x1_0000_0000)
  {
    hide SpellsLow32, LittleEndian;
    var bits, q := 8 * n % TWO_64, 8 * n / TWO_64;
    AddTurns(bits, TWO_32, q * TWO_32);
    AddTurns(bits / TWO_32, TWO_32, q);
    DivModUnique(bits / TWO_32, TWO_32, 0, bits / TWO_32);
    var ws := [bits % TWO_32, bits / TWO_32];
    LittleEndianSpells(ws, 0, 8 * n);
    LittleEndianSpells(ws, 1, 8 * n / TWO_32);
  }

  /** Section 3.5: the state, low byte first. */
  function Output(s: State): (d: seq<byte>)
    ensures |d| == 16
  {
    LittleEndian([s.a, s.b, s.c, s.d])
  }

  /** Four words of state in sixteen bytes: each low byte first, in the order a, b, c, d. */
  predicate Stores(d: seq<byte>, s: State) {
    |d| == 16 && SpellsLow32(d, 0, s.a) && SpellsLow32(d, 4, s.b) && SpellsLow32(d, 8, s.c) && SpellsLow32(d, 12, s.d)
  }

  lemma OutputStores(s: State)
    ensures Stores(Output(s), s)
  {
    hide SpellsLow32, LittleEndian;
    var ws := [s.a, s.b, s.c, s.d];
    LittleEndianSpells(ws, 0, s.a);
    LittleEndianSpells(ws, 1, s.b);
    LittleEndianSpells(ws, 2, s.c);
    LittleEndianSpells(ws, 3, s.d);
  }

  /** The four words of section 3.3 are there given as bytes, low byte first. */
  lemma InitialBytes()
    ensures Stores([0x01, 0x23, 0x45, 0x67, 0x89, 0xab, 0xcd, 0xef, 0xfe, 0xdc, 0xba, 0x98, 0x76, 0x54, 0x32, 0x10],
              INITIAL_STATE)
  {
  }

  /** The digest of a message, computed in one go from a given starting state. */
  function Digest(start: State, m: seq<byte>, transform: Transform): seq<byte> {
    Output(Fold(start, Padded(m), transform))
  }

  // ------------------------------------------------------------ the arithmetic of the running count

  /** The two count words after `length` more bytes, as `update` computes them. */
  function AddBits(low: word, high: word, length: word): (word, word) {
    var bits := Word(8 * length);
    var low' := Word(low + bits);
    var high' := if low' < bits then Word(high + 1) else high;
    (low', Word(high' + length / 0x2000_0000))
  }

  /** The two words together count bits modulo 2 to the 64: the carry is right. */
  lemma AddBitsIsAddition(low: word, high: word, length: word)
    ensures var (low', high') := AddBits(low, high, length);
            low' + TWO_32 * high' == (low + TWO_32 * high + 8 * length) % TWO_64
  {
    var bits, top := Word(8 * length), length / 0x2000_0000;
    assert 8 * length == bits + TWO_32 * top;
    var (low', high') := AddBits(low, high, length);
    var carry := if low' < bits then 1 else 0;
    assert low + bits == low' + TWO_32 * carry;
    var total := low + TWO_32 * high + 8 * length;
    assert total == low' + TWO_32 * (high + carry + top);
    WordSum(high, carry, top);
    Modulo64(low', high + carry + top);
  }

  lemma WordSum(high: word, carry: int, top: int)
    requires 0 <= carry <= 1
    ensures Word(Word(high + carry) + top) == Word(high + carry + top)
    ensures carry == 0 ==> Word(high + carry) == high
  {
    var q := (high + carry) / TWO_32;
    assert high + carry == q * TWO_32 + Word(high + carry);
  }

  lemma Modulo64(low: word, high: nat)
    ensures (low + TWO_32 * high) % TWO_64 == low + TWO_32 * Word(high)
  {
    var q := high / TWO_32;
    assert high == q * TWO_32 + Word(high);
    DivModUnique(low + TWO_32 * high, TWO_64, q, low + TWO_32 * Word(high));
  }

  /** The low count word tells how many bytes are waiting in the buffer. */
  lemma CountIndex(n: nat, low: word, high: word)
    requires low + TWO_32 * high == 8 * n % TWO_64
    ensures low / 8 % BLOCK_SIZE == n % BLOCK_SIZE
  {
    var q := 8 * n / TWO_64;
    assert 8 * n == q * TWO_64 + low + TWO_32 * high;
    var k := q * 0x80_0000_0000_0000 + 0x80_0000 * high;
    assert low == 8 * (n - k * BLOCK_SIZE);
    DivModUnique(low, 8, n - k * BLOCK_SIZE, 0);
    AddTurns(n, BLOCK_SIZE, -k);
  }

  /** The two count words in bytes are the length field of section 3.2. */
  lemma CountAsBytes(n: nat, low: word, high: word)
    requires low + TWO_32 * high == 8 * n % TWO_64
    ensures LittleEndian([low, high]) == LengthBytes(n)
  {
    var bits := 8 * n % TWO_64;
    DivModUnique(bits, TWO_32, high, low);
  }

  // ------------------------------------------------------------ the block loop

  /**
   `update` advances over its input by whole blocks with a 32-bit index.  The index stays
   below 2 to the 32 exactly when this holds, with `index` bytes already buffered.
   */
  predicate IndexFits(index: nat, length: nat)
    requires index < BLOCK_SIZE
  {
    length < TWO_32 - BLOCK_SIZE + (BLOCK_SIZE - index) % BLOCK_SIZE
  }

  /** Where the loop should stop: past the last complete block. */
  function LastBlockEnd(index: nat, length: nat): (i: int)
    requires index < BLOCK_SIZE <= index + length
    ensures BLOCK_SIZE - index <= i <= length < i + BLOCK_SIZE && (i + index) % BLOCK_SIZE == 0
  {
    length - (index + length) % BLOCK_SIZE
  }

  /** The 32-bit guard lets the loop stop where it should exactly when the index fits. */
  lemma GuardIsExact(index: nat, length: word)
    requires index < BLOCK_SIZE <= index + length
    ensures (LastBlockEnd(index, length) + BLOCK_SIZE) % TWO_32 > length <==> IndexFits(index, length)
  {
    var i := LastBlockEnd(index, length);
    BlocksBelow(index, i);
  }

  /** A length that does not fit: past the last block, the wrapped guard lets the loop go on from the start of memory. */
  lemma GuardOverruns(length: word)
    requires length == 0xffff_ffc0
    ensures !IndexFits(0, length) && LastBlockEnd(0, length) == length
    ensures (LastBlockEnd(0, length) + BLOCK_SIZE) % TWO_32 == 0 <= length
  {
    assert length % BLOCK_SIZE == 0;
  }

  /** A block boundary that is below 2 to the 32 leaves room for a whole block up to there. */
  lemma BlocksBelow(index: nat, i: nat)
    requires index < BLOCK_SIZE && (i + index) % BLOCK_SIZE == 0
    ensures i + BLOCK_SIZE < TWO_32 || i + BLOCK_SIZE >= TWO_32 + (BLOCK_SIZE - index) % BLOCK_SIZE
  {
    var k := (i + index) / BLOCK_SIZE;
    assert i + index == 64 * k;
  }

  // ------------------------------------------------------------ the context

  class Md5 {
    const transform: Transform
    var finalized: bool
    const buffer: array<byte>
    var count0: word
    var count1: word
    var state: State
    const digest: array<byte>

    ghost var start: State        // the state the current message started from
    ghost var message: seq<byte>  // the bytes given since

    /**
     However the message arrived, the state is the fold of the transform over its complete
     blocks, the buffer holds the rest, and the count is its length in bits.
     */
    ghost predicate Valid()
      reads this, buffer
    {
      && buffer.Length == BLOCK_SIZE && digest.Length == 16 && buffer != digest
      && count0 + TWO_32 * count1 == 8 * |message| % TWO_64
      && state == Fold(start, Whole(message), transform)
      && buffer[..|message| % BLOCK_SIZE] == Tail(message)
    }

    constructor (transform: Transform)
      ensures Valid() && !finalized && message == []
      ensures start == state == State(0x67452301, 0xefcdab89, 0x98badcfe, 0x10325476)
      ensures fresh(buffer) && fresh(digest)
    {
      this.transform := transform;
      finalized, count0, count1, state := false, 0, 0, INITIAL_STATE;
      buffer, digest := new byte[BLOCK_SIZE](_ => 0), new byte[16](_ => 0);
      start, message := INITIAL_STATE, [];
    }

    /** Feed more bytes: the context afterwards depends on the whole message, not on how it was split. */
    method Update(input: seq<byte>)
      requires Valid() && |input| < TWO_32 && IndexFits(|message| % BLOCK_SIZE, |input|)
      modifies this`count0, this`count1, this`state, this`message, buffer
      ensures Valid() && message == old(message) + input
    {
      hide Fold, AddBits, LittleEndian, IndexFits, Spliced;
      var index := count0 / 8 % BLOCK_SIZE;
      CountAdds(|message|, |input|, count0, count1);
      count0, count1 := AddCount(count0, count1, |input|);
      var firstPart := BLOCK_SIZE - index;
      ghost var m := message;
      message := m + input;
      if |input| < firstPart {
        Short(m, input);
        SplicedWithin(buffer[..], index, input);
        Copy(buffer, index, input);
      } else {
        FillFirst(index, input[..firstPart], m);
        var i := Blocks(input, firstPart, m);
        Long(m, input, i);
        SplicedWithin(buffer[..], 0, input[i..]);
        Copy(buffer, 0, input[i..]);
      }
    }

    /** Compute the digest of a whole text at once. */
    constructor FromText(transform: Transform, text: seq<byte>)
      requires IndexFits(0, |text|)
      ensures Valid() && finalized && fresh(buffer) && fresh(digest)
      ensures digest[..] == Digest(INITIAL_STATE, text, transform)
      ensures Stores(digest[..], Fold(State(0x67452301, 0xefcdab89, 0x98badcfe, 0x10325476), Padded(text), transform))
    {
      this.transform := transform;
      finalized, count0, count1, state := false, 0, 0, INITIAL_STATE;
      buffer, digest := new byte[BLOCK_SIZE](_ => 0), new byte[16](_ => 0);
      start, message := INITIAL_STATE, [];
      new;
      Update(text);
      assert [] + text == text;
      hide Stores, Fold, Output;
      Finalize();
    }

    /**
     Pad, append the length, and store the digest of everything given so far; nothing stays
     buffered or counted.  A second call does nothing.
     */
    method Finalize()
      requires Valid()
      modifies this, buffer, digest
      ensures Valid() && finalized
      ensures old(finalized) ==>
        && digest[..] == old(digest[..]) && buffer[..] == old(buffer[..])
        && (count0, count1, state, start, message) == old((count0, count1, state, start, message))
      ensures !old(finalized) ==>
        && digest[..] == Digest(old(start), old(message), transform)
        && Stores(digest[..], Fold(old(start), Padded(old(message)), transform))
        && start == state == Fold(old(start), Padded(old(message)), transform)
        && count0 == count1 == 0 && buffer[..] == Zeros(64) && message == []
    {
      if !finalized {
        hide Fold, Padding, Whole, Tail, LengthBytes, Stores;
        var bits := new byte[8];
        Encode(bits, [count0, count1]);
        ghost var m := message;
        CountAsBytes(|m|, count0, count1);
        var index := count0 / 8 % BLOCK_SIZE;
        CountIndex(|m|, count0, count1);
        var padLen := if index < 56 then 56 - index else 120 - index;
        PaddingPrefix(|m|);
        hide LittleEndian, Digest;
        Update(PADDING[..padLen]);
        Update(bits[..]);
        assert message == Padded(m);
        StoreDigest(m);
      }
    }

    /** The end of `finalize`: store the state, forget the message. */
    method StoreDigest(ghost m: seq<byte>)
      requires Valid() && message == Padded(m)
      modifies this, buffer, digest
      ensures Valid() && finalized && digest[..] == Digest(old(start), m, transform)
      ensures Stores(digest[..], state) && start == state == Fold(old(start), Padded(m), transform)
      ensures count0 == count1 == 0 && buffer[..] == Zeros(BLOCK_SIZE) && message == []
    {
      hide Padded, Fold, Whole, Tail, LittleEndian, Stores;
      OutputStores(state);
      WholeIsAll(message);
      Encode(digest, [state.a, state.b, state.c, state.d]);
      Forget();
    }

    /** Nothing is counted or buffered any more: the state becomes the start of an empty message. */
    method Forget()
      requires Valid()
      modifies this`count0, this`count1, this`finalized, this`start, this`message, buffer
      ensures Valid() && finalized && count0 == count1 == 0 && buffer[..] == Zeros(BLOCK_SIZE) && message == []
      ensures start == state
    {
      hide Fold, Whole, Tail;
      count0, count1, finalized := 0, 0, true;
      start, message := state, [];
      ZeroBuffer();
      NothingLeft(state, transform);
      assert buffer[..|message| % BLOCK_SIZE] == [];
    }

    /** `memset` of the buffer. */
    method ZeroBuffer()
      requires buffer.Length == BLOCK_SIZE
      modifies buffer
      ensures buffer[..] == Zeros(BLOCK_SIZE)
    {
      SplicedWithin(buffer[..], 0, Zeros(BLOCK_SIZE));
      Copy(buffer, 0, Zeros(BLOCK_SIZE));
      assert buffer[0..BLOCK_SIZE] == buffer[..];
    }

    /** The two-word count, step by step. */
    method AddCount(low: word, high: word, length: word) returns (low': word, high': word)
      ensures (low', high') == AddBits(low, high, length)
    {
      low', high' := low, high;
      var bits := Word(8 * length);
      low' := Word(low' + bits);
      if low' < bits {
        high' := Word(high' + 1);
      }
      high' := Word(high' + length / 0x2000_0000);
    }

    /** Complete the buffered block and transform it. */
    method FillFirst(index: nat, first: seq<byte>, ghost m: seq<byte>)
      requires buffer.Length == BLOCK_SIZE && index == |m| % BLOCK_SIZE && |first| == BLOCK_SIZE - index
      requires state == Fold(start, Whole(m), transform) && buffer[..index] == Tail(m)
      modifies this`state, buffer
      ensures (|m| + |first|) % BLOCK_SIZE == 0 && state == Fold(start, m + first, transform)
    {
      SplicedWithin(buffer[..], index, first);
      Copy(buffer, index, first);
      var block := buffer[..];
      assert block == Tail(m) + first;
      state := transform(state, block);
      FoldSplits(start, Whole(m), block, transform);
      assert Whole(m) + block == m + first;
      assert block[..BLOCK_SIZE] == block && block[BLOCK_SIZE..] == [];
    }

    /** Transform block after block straight from the input. */
    method Blocks(input: seq<byte>, firstPart: nat, ghost m: seq<byte>) returns (i: nat)
      requires |input| < TWO_32 && IndexFits(|m| % BLOCK_SIZE, |input|)
      requires firstPart == BLOCK_SIZE - |m| % BLOCK_SIZE <= |input|
      requires (|m| + firstPart) % BLOCK_SIZE == 0 && state == Fold(start, m + input[..firstPart], transform)
      modifies this`state
      ensures i <= |input| < i + BLOCK_SIZE && (|m| + i) % BLOCK_SIZE == 0
      ensures state == Fold(start, m + input[..i], transform)
    {
      i := firstPart;
      while (i + BLOCK_SIZE) % TWO_32 <= |input|
        invariant i <= |input| && (|m| + i) % BLOCK_SIZE == 0
        invariant state == Fold(start, m + input[..i], transform)
        decreases |input| - i
      {
        GuardInRange(|m|, |input|, i);
        var block := input[i..i + BLOCK_SIZE];
        state := transform(state, block);
        NextBlock(start, m + input[..i], block, transform);
        assert m + input[..i] + block == m + input[..i + BLOCK_SIZE];
        i := i + BLOCK_SIZE;
      }
      GuardInRange(|m|, |input|, i);
    }
  }

  /** Two contexts given the same message, however split, agree on everything `update` and `finalize` use. */
  lemma SplitIsInvisible(x: Md5, y: Md5)
    requires x.Valid() && y.Valid() && x.transform == y.transform
    requires x.start == y.start && x.message == y.message
    ensures (x.state, x.count0, x.count1) == (y.state, y.count0, y.count1)
    ensures var index := x.count0 / 8 % BLOCK_SIZE; x.buffer[..index] == y.buffer[..index]
  {
    CountIndex(|x.message|, x.count0, x.count1);
    var total := x.count0 + TWO_32 * x.count1;
    assert total == y.count0 + TWO_32 * y.count1;
    assert x.count0 == total % TWO_32 == y.count0;
  }

  /** The count words track the length of the message. */
  lemma CountAdds(n: nat, more: word, low: word, high: word)
    requires low + TWO_32 * high == 8 * n % TWO_64
    ensures low / 8 % BLOCK_SIZE == n % BLOCK_SIZE
    ensures var (low', high') := AddBits(low, high, more); low' + TWO_32 * high' == 8 * (n + more) % TWO_64
  {
    hide AddBits;
    CountIndex(n, low, high);
    AddBitsIsAddition(low, high, more);
    CountAppends(n, more, low + TWO_32 * high);
  }

  lemma CountAppends(n: nat, more: nat, count: int)
    requires count == 8 * n % TWO_64
    ensures (count + 8 * more) % TWO_64 == 8 * (n + more) % TWO_64
  {
    var q := 8 * n / TWO_64;
    assert 8 * n == q * TWO_64 + count;
    assert 8 * (n + more) == q * TWO_64 + (count + 8 * more);
  }

  /** At a block boundary within the input, the wrapped guard says whether a whole block is left. */
  lemma GuardInRange(n: nat, length: word, i: nat)
    requires i <= length && (n + i) % BLOCK_SIZE == 0 && IndexFits(n % BLOCK_SIZE, length)
    ensures (i + BLOCK_SIZE) % TWO_32 <= length <==> i + BLOCK_SIZE <= length
  {
    assert (i + n % BLOCK_SIZE) % BLOCK_SIZE == 0;
    BlocksBelow(n % BLOCK_SIZE, i);
  }

  /** The fold over blocks of 64 bytes: the state it starts from, and one transform per block, in order. */
  lemma NextBlock(s: State, data: seq<byte>, block: seq<byte>, transform: Transform)
    requires |data| % 64 == 0 && |block| == 64
    ensures Fold(s, [], transform) == s
    ensures Fold(s, data + block, transform) == transform(Fold(s, data, transform), block)
  {
    FoldSplits(s, data, block, transform);
    assert block[..BLOCK_SIZE] == block && block[BLOCK_SIZE..] == [];
  }

  /** Input that does not complete a block joins the tail. */
  lemma Short(m: seq<byte>, input: seq<byte>)
    requires |input| < BLOCK_SIZE - |m| % BLOCK_SIZE
    ensures Whole(m + input) == Whole(m) && Tail(m + input) == Tail(m) + input
    ensures |m + input| % BLOCK_SIZE == |m| % BLOCK_SIZE + |input|
  {
  }

  /** Input past the last complete block becomes the tail. */
  lemma Long(m: seq<byte>, input: seq<byte>, i: nat)
    requires i <= |input| < i + BLOCK_SIZE && (|m| + i) % BLOCK_SIZE == 0
    ensures Whole(m + input) == m + input[..i] && Tail(m + input) == input[i..]
    ensures |m + input| % BLOCK_SIZE == |input| - i
  {
    assert |m + input| == (|m| + i) + (|input| - i);
    assert (m + input)[..|m| + i] == m + input[..i];
  }
}
