/**
 The streaming SHA-256 of sha2.c against section 5 and 6.2 of FIPS 180-4: padding, the message schedule and the
 chain of blocks.
 */
module Sha256 {
  import opened Sha256Standard

  type Byte = bv8

  const BLOCK_LENGTH: nat := 64
  const SHORT_BLOCK_LENGTH: nat := 56
  /** Messages have fewer than 2^64 bits. */
  const LIMIT: nat := 0x2000_0000_0000_0000

  // ---------- Messages ----------

  /** The big-endian words of a block. */
  function WordAt(block: seq<Byte>, j: nat): Word
    requires 4 * j + 4 <= |block|
  {
    (block[4 * j] as Word << 24) | (block[4 * j + 1] as Word << 16)
    | (block[4 * j + 2] as Word << 8) | block[4 * j + 3] as Word
  }

  function WordsOf(block: seq<Byte>): (m: seq<Word>)
    requires |block| == BLOCK_LENGTH
    ensures |m| == 16
  {
    seq(16, j requires 0 <= j < 16 => WordAt(block, j))
  }

  /** The next intermediate hash value. */
  function Compress(k: seq<Word>, h: Vars, block: seq<Byte>): Vars
    requires |block| == BLOCK_LENGTH && |k| >= 16
  {
    Sum(h, Rounds(k, h, Schedule(WordsOf(block), |k|), |k|))
  }

  /** The hash value after all whole blocks of a message. */
  function Chain(k: seq<Word>, h: Vars, m: seq<Byte>): Vars
    requires |k| >= 16
    decreases |m|
  {
    if |m| < BLOCK_LENGTH then h
    else Chain(k, Compress(k, h, m[..BLOCK_LENGTH]), m[BLOCK_LENGTH..])
  }

  function Zeros(n: nat): (s: seq<Byte>)
    ensures |s| == n
  {
    seq(n, _ => 0)
  }

  /** The last `n` bytes of a number, the highest first. */
  function BigEndian(x: nat, n: nat): (s: seq<Byte>)
    ensures |s| == n
  {
    if n == 0 then [] else BigEndian(x / 0x100, n - 1) + [(x % 0x100) as Byte]
  }

  /** How many zero bytes section 5.1.1 puts between the 1 bit and the length. */
  function ZeroCount(length: nat): (k: nat)
    ensures (length + 1 + k) % BLOCK_LENGTH == SHORT_BLOCK_LENGTH && k < BLOCK_LENGTH
  {
    (BLOCK_LENGTH + SHORT_BLOCK_LENGTH - 1 - length % BLOCK_LENGTH) % BLOCK_LENGTH
  }

  /** The padding of section 5.1.1, for a message of whole bytes. */
  function Padding(length: nat): seq<Byte> {
    [0x80] + Zeros(ZeroCount(length)) + BigEndian(8 * length, 8)
  }

  /** The hash value of section 6.2, with the constants `k`. */
  function Hash(k: seq<Word>, m: seq<Byte>): Vars
    requires |k| >= 16
  {
    Chain(k, INITIAL, Padded(m))
  }

  // ---------- The chain of blocks ----------

  /** The part of a message in whole blocks. */
  function Whole(n: nat): (w: nat)
    ensures w <= n < w + BLOCK_LENGTH && w % BLOCK_LENGTH == 0
  {
    n - n % BLOCK_LENGTH
  }

  lemma ChainStep(k: seq<Word>, h: Vars, m: seq<Byte>, block: seq<Byte>, rest: seq<Byte>)
    requires |k| >= 16 && |block| == BLOCK_LENGTH && m == block + rest
    ensures Chain(k, h, m) == Chain(k, Compress(k, h, block), rest)
  {
    assert m[..BLOCK_LENGTH] == block && m[BLOCK_LENGTH..] == rest;
  }

  lemma {:induction false} ChainConcat(k: seq<Word>, h: Vars, x: seq<Byte>, y: seq<Byte>, n: nat)
    requires |x| == BLOCK_LENGTH * n && |k| >= 16
    ensures Chain(k, h, x + y) == Chain(k, Chain(k, h, x), y)
    decreases n, 1
  {
    if n == 0 {
      assert x + y == y;
    } else {
      var block, rest := x[..BLOCK_LENGTH], x[BLOCK_LENGTH..];
      ChainConcatStep(k, h, block, rest, y, n);
      assert x == block + rest && x + y == block + (rest + y);
    }
  }

  lemma {:induction false} ChainConcatStep(k: seq<Word>, h: Vars, block: seq<Byte>, rest: seq<Byte>,
                                           y: seq<Byte>, n: nat)
    requires |block| == BLOCK_LENGTH && n > 0 && |rest| == BLOCK_LENGTH * (n - 1) && |k| >= 16
    ensures Chain(k, h, block + (rest + y)) == Chain(k, Chain(k, h, block + rest), y)
    decreases n, 0
  {
    ChainStep(k, h, block + (rest + y), block, rest + y);
    ChainStep(k, h, block + rest, block, rest);
    ChainConcat(k, Compress(k, h, block), rest, y, n - 1);
  }

  lemma ChainOne(k: seq<Word>, h: Vars, x: seq<Byte>)
    requires |x| == BLOCK_LENGTH && |k| >= 16
    ensures Chain(k, h, x) == Compress(k, h, x)
  {
    assert x == x + [];
    ChainStep(k, h, x, x, []);
  }

  // ---------- The transformation of a block ----------

  /** Slot `t % 16` of the sixteen words holds word `t` of the schedule, for the last sixteen words before `j`. */
  ghost predicate Holds(w: seq<Word>, s: seq<Word>, j: nat) {
    |w| == 16 <= j <= |s| && forall t :: j - 16 <= t < j ==> w[t % 16] == s[t]
  }

  lemma OtherSlot(t: nat, j: nat)
    requires j < t < j + 16
    ensures t % 16 != j % 16
  {
  }

  /** The expansion of one word in place. */
  lemma Expanded(w: seq<Word>, s: seq<Word>, j: nat, x: Word)
    requires Holds(w, s, j) && j < |s| && s[j] == NextWord(s[..j], j)
    requires x == Add(w[j % 16], Add(Add(Sigma1(w[(j + 14) % 16]), w[(j + 9) % 16]), Sigma0(w[(j + 1) % 16])))
    ensures x == s[j] && Holds(w[j % 16 := x], s, j + 1)
  {
    assert w[(j - 2) % 16] == s[j - 2] && w[(j - 7) % 16] == s[j - 7];
    assert w[(j - 15) % 16] == s[j - 15] && w[(j - 16) % 16] == s[j - 16];
    AddCommutes(s[j - 16], Add(Add(Sigma1(s[j - 2]), s[j - 7]), Sigma0(s[j - 15])));
    Replaced(w, s, j);
  }

  lemma Replaced(w: seq<Word>, s: seq<Word>, j: nat)
    requires Holds(w, s, j) && j < |s|
    ensures Holds(w[j % 16 := s[j]], s, j + 1)
  {
    forall t | j - 15 <= t < j + 1 ensures w[j % 16 := s[j]][t % 16] == s[t] {
      if t < j {
        OtherSlot(j, t);
      }
    }
  }

  lemma HoldsFirst(w: seq<Word>, s: seq<Word>)
    requires |w| == 16 <= |s| && forall t :: 0 <= t < 16 ==> w[t] == s[t]
    ensures Holds(w, s, 16)
  {
  }

  class Sha256Ctx {
    /** The constants of the rounds. */
    const k: seq<Word>
    var state: Vars
    var bitcount: nat
    const buffer: array<Byte>
    /** The bytes hashed so far. */
    ghost var message: seq<Byte>

    /** The context stands for its message: whole blocks in the chain, the rest in the buffer. */
    ghost predicate Valid()
      reads this, buffer
    {
      && |k| == 64 && buffer.Length == BLOCK_LENGTH
      && |message| < LIMIT && bitcount == 8 * |message|
      && state == Chain(k, INITIAL, message[..Whole(|message|)])
      && buffer[..|message| - Whole(|message|)] == message[Whole(|message|)..]
    }

    constructor ()
      ensures Valid() && message == [] && k == K256 && fresh(buffer)
    {
      k := K256;
      state, bitcount, message := INITIAL, 0, [];
      buffer := new Byte[BLOCK_LENGTH](_ => 0);
    }

    /** Sixteen rounds with the words of the block, and 48 with words that are expanded in place. */
    method Transform(h: Vars, data: seq<Byte>) returns (state: Vars)
      requires |data| == BLOCK_LENGTH && |k| == 64
      ensures state == Compress(k, h, data)
    {
      ghost var s := Schedule(WordsOf(data), |k|);
      forall t | 0 <= t < 16 ensures s[t] == WordAt(data, t) { ScheduleWord(WordsOf(data), |k|, t); }
      var w, v := FirstRounds(h, data, s);
      var j := 16;
      while j < 64
        invariant 16 <= j <= 64 && v == Rounds(k, h, s, j) && fresh(w) && w.Length == 16 && Holds(w[..], s, j)
      {
        ScheduleWord(WordsOf(data), |k|, j);
        v := ExpandAndStep(w, v, j, s);
        j := j + 1;
      }
      state := Sum(h, v);
    }

    method FirstRounds(h: Vars, data: seq<Byte>, ghost s: seq<Word>) returns (w: array<Word>, v: Vars)
      requires |data| == BLOCK_LENGTH && |k| == 64 && |s| == 64 && (forall t :: 0 <= t < 16 ==> s[t] == WordAt(data, t))
      ensures fresh(w) && w.Length == 16 && Holds(w[..], s, 16) && v == Rounds(k, h, s, 16)
    {
      w := new Word[16](_ => 0);
      v := h;
      var j := 0;
      while j < 16
        invariant 0 <= j <= 16 && v == Rounds(k, h, s, j)
        invariant forall t :: 0 <= t < j ==> w[t] == s[t]
      {
        v := LoadAndStep(w, v, j, data, s);
        j := j + 1;
      }
      HoldsFirst(w[..], s);
    }

    method LoadAndStep(w: array<Word>, v: Vars, j: nat, data: seq<Byte>, ghost s: seq<Word>) returns (v': Vars)
      requires j < 16 <= |k| && w.Length == 16 && |data| == BLOCK_LENGTH && |s| == 64
      requires forall t :: 0 <= t < 16 ==> s[t] == WordAt(data, t)
      modifies w
      ensures v' == Round(v, k[j], s[j]) && w[..] == old(w[..])[j := s[j]]
    {
      w[j] := WordAt(data, j);
      v' := Step(v, k[j], w[j]);
    }

    /** One word of the schedule is expanded in place, and used. */
    method ExpandAndStep(w: array<Word>, v: Vars, j: nat, ghost s: seq<Word>) returns (v': Vars)
      requires 16 <= j < 64 == |k| && w.Length == 16 && Holds(w[..], s, j) && |s| == 64 && s[j] == NextWord(s[..j], j)
      modifies w
      ensures Holds(w[..], s, j + 1) && v' == Round(v, k[j], s[j])
    {
      var s0, s1 := Sigma0(w[(j + 1) % 16]), Sigma1(w[(j + 14) % 16]);
      var x := Add(w[j % 16], Add(Add(s1, w[(j + 9) % 16]), s0));
      Expanded(w[..], s, j, x);
      w[j % 16] := x;
      v' := Step(v, k[j], x);
    }

    /** The registers are shifted one by one. */
    method Step(v: Vars, k: Word, w: Word) returns (r: Vars)
      ensures r == Round(v, k, w)
    {
      var a, b, c, d, e, f, g, h := v.a, v.b, v.c, v.d, v.e, v.f, v.g, v.h;
      var t1 := Add(Add(Add(Add(h, BigSigma1(e)), Ch(e, f, g)), k), w);
      var t2 := Add(BigSigma0(a), Maj(a, b, c));
      h := g;
      g := f;
      f := e;
      e := Add(d, t1);
      d := c;
      c := b;
      b := a;
      a := Add(t1, t2);
      r := Vars(a, b, c, d, e, f, g, h);
    }

    // ---------- The buffer ----------

    /** Copies bytes into the buffer. */
    method Store(at: nat, data: seq<Byte>)
      requires buffer.Length == BLOCK_LENGTH && at + |data| <= BLOCK_LENGTH
      modifies buffer
      ensures buffer[..] == old(buffer[..at]) + data + old(buffer[at + |data|..])
    {
      forall i | 0 <= i < |data| {
        buffer[at + i] := data[i];
      }
    }

    /** The block is compressed into the state. The schedule is expanded in the buffer, which loses its contents. */
    method Process(block: seq<Byte>)
      requires |k| == 64 && buffer.Length == BLOCK_LENGTH && |block| == BLOCK_LENGTH
      modifies this`state, buffer
      ensures state == Compress(k, old(state), block)
    {
      state := Transform(state, block);
      var i := 0;
      while i < BLOCK_LENGTH
        invariant 0 <= i <= BLOCK_LENGTH && state == Compress(k, old(state), block)
      {
        buffer[i] := *;
        i := i + 1;
      }
    }

    // ---------- SHA256_Update ----------

    /** Everything but the bytes in the buffer: `n` bytes of `m` are in the chain. */
    ghost predicate Chained(m: seq<Byte>, n: nat)
      reads this
    {
      && |k| == 64 && buffer.Length == BLOCK_LENGTH
      && n <= |m| && n % BLOCK_LENGTH == 0 && state == Chain(k, INITIAL, m[..n])
    }

    /** One more block of the message. */
    method Absorb(block: seq<Byte>, ghost m: seq<Byte>, ghost n: nat)
      requires Chained(m, n) && |block| == BLOCK_LENGTH && n + BLOCK_LENGTH <= |m| && block == m[n..n + BLOCK_LENGTH]
      modifies this`state, buffer
      ensures Chained(m, n + BLOCK_LENGTH)
    {
      BlockChained(k, m, n);
      Process(block);
    }

    method Update(data: seq<Byte>)
      requires Valid() && |message| + |data| < LIMIT
      modifies this`state, this`bitcount, this`message, buffer
      ensures Valid() && message == old(message) + data
    {
      if |data| == 0 {
        assert message + data == message;
        return;
      }
      var usedspace := bitcount / 8 % BLOCK_LENGTH;
      if usedspace > 0 {
        var freespace := BLOCK_LENGTH - usedspace;
        if |data| >= freespace {
          FillBuffer(data, usedspace);
          UpdateBlocks(data[freespace..], message + data);
        } else {
          SaveMore(data, usedspace);
        }
      } else {
        assert message[..Whole(|message|)] == (message + data)[..|message|];
        UpdateBlocks(data, message + data);
      }
    }

    /** The data do not fill the buffer. */
    method SaveMore(data: seq<Byte>, usedspace: nat)
      requires Valid() && usedspace == |message| % BLOCK_LENGTH && usedspace + |data| < BLOCK_LENGTH
      requires |message| + |data| < LIMIT
      modifies this`bitcount, this`message, buffer
      ensures Valid() && message == old(message) + data
    {
      Store(usedspace, data);
      bitcount := bitcount + 8 * |data|;
      Saved(message, data, usedspace, old(buffer[..]), buffer[..]);
      message := message + data;
    }

    /** The data complete the block in the buffer, which is processed. */
    method FillBuffer(data: seq<Byte>, usedspace: nat)
      requires Valid() && usedspace == |message| % BLOCK_LENGTH > 0 && usedspace + |data| >= BLOCK_LENGTH
      modifies this`state, this`bitcount, buffer
      ensures var m, rest := message + data, data[BLOCK_LENGTH - usedspace..];
        && |rest| <= |m| && m[|m| - |rest|..] == rest && Chained(m, |m| - |rest|)
        && bitcount == 8 * (|m| - |rest|)
    {
      var freespace := BLOCK_LENGTH - usedspace;
      Store(usedspace, data[..freespace]);
      bitcount := bitcount + 8 * freespace;
      Completed(message, data, usedspace, old(buffer[..]), buffer[..]);
      Absorb(buffer[..], message + data, Whole(|message|));
    }

    /** Whole blocks are taken from the data, and what is left over is saved. */
    method UpdateBlocks(data: seq<Byte>, ghost m: seq<Byte>)
      requires |data| <= |m| < LIMIT && m[|m| - |data|..] == data && Chained(m, |m| - |data|)
      requires bitcount == 8 * (|m| - |data|)
      modifies this`state, this`bitcount, this`message, buffer
      ensures Valid() && message == m
    {
      var rest := data;
      while |rest| >= BLOCK_LENGTH
        invariant |rest| <= |m| && m[|m| - |rest|..] == rest && Chained(m, |m| - |rest|)
        invariant bitcount == 8 * (|m| - |rest|)
      {
        TakeBlock(rest, m);
        bitcount := bitcount + 8 * BLOCK_LENGTH;
        rest := rest[BLOCK_LENGTH..];
      }
      SaveRest(rest, m);
    }

    method TakeBlock(rest: seq<Byte>, ghost m: seq<Byte>)
      requires BLOCK_LENGTH <= |rest| <= |m| && m[|m| - |rest|..] == rest && Chained(m, |m| - |rest|)
      modifies this`state, buffer
      ensures m[|m| - |rest[BLOCK_LENGTH..]|..] == rest[BLOCK_LENGTH..] && Chained(m, |m| - |rest[BLOCK_LENGTH..]|)
    {
      ghost var n: nat := |m| - |rest|;
      assert rest[..BLOCK_LENGTH] == m[n..n + BLOCK_LENGTH];
      Absorb(rest[..BLOCK_LENGTH], m, n);
    }

    method SaveRest(rest: seq<Byte>, ghost m: seq<Byte>)
      requires |rest| < BLOCK_LENGTH && |rest| <= |m| < LIMIT && m[|m| - |rest|..] == rest && Chained(m, |m| - |rest|)
      requires bitcount == 8 * (|m| - |rest|)
      modifies this`bitcount, this`message, buffer
      ensures Valid() && message == m
    {
      assert |m| - |rest| == Whole(|m|);
      if |rest| > 0 {
        Store(0, rest);
        bitcount := bitcount + 8 * |rest|;
      }
      message := m;
      assert buffer[..|rest|] == rest;
    }

    // ---------- SHA256_Final ----------

    /** The digest is the hash value of the message, as words; the context is cleared. */
    method Final() returns (digest: Vars)
      requires Valid()
      modifies this`state, this`bitcount, buffer
      ensures digest == Hash(k, old(message)) && state == Vars(0, 0, 0, 0, 0, 0, 0, 0) && bitcount == 0
    {
      var usedspace := bitcount / 8 % BLOCK_LENGTH;
      var length := BigEndian(bitcount, 8);
      ghost var n;
      if usedspace > 0 {
        n := PadUsed(usedspace);
      } else {
        n := PadEmpty();
      }
      LastBlock(n, length);
      digest := state;
      state, bitcount := Vars(0, 0, 0, 0, 0, 0, 0, 0), 0;
    }

    method LastBlock(ghost n: nat, length: seq<Byte>)
      requires LastBegun(n) && length == BigEndian(8 * |message|, 8)
      modifies this`state, buffer
      ensures state == Hash(k, message)
    {
      ghost var m := Padded(message);
      Store(SHORT_BLOCK_LENGTH, length);
      assert m[n..n + BLOCK_LENGTH] == m[n..n + SHORT_BLOCK_LENGTH] + m[n + SHORT_BLOCK_LENGTH..];
      Absorb(buffer[..], m, n);
      assert m[..|m|] == m;
    }

    /** The last block begins, up to the length field. */
    ghost predicate LastBegun(n: nat)
      reads this, buffer
    {
      var m := Padded(message);
      && Chained(m, n) && n + BLOCK_LENGTH == |m|
      && buffer[..SHORT_BLOCK_LENGTH] == m[n..n + SHORT_BLOCK_LENGTH]
      && m[n + SHORT_BLOCK_LENGTH..] == BigEndian(8 * |message|, 8)
    }

    method PadEmpty() returns (ghost n: nat)
      requires Valid() && |message| % BLOCK_LENGTH == 0
      modifies buffer
      ensures LastBegun(n)
    {
      n := |message|;
      ShortPad(message);
      assert message[..Whole(|message|)] == Padded(message)[..n];
      ClearShort();
      buffer[0] := 0x80;
      assert buffer[..SHORT_BLOCK_LENGTH] == [0x80] + Zeros(SHORT_BLOCK_LENGTH - 1);
    }

    method PadUsed(used: nat) returns (ghost n: nat)
      requires Valid() && used == |message| % BLOCK_LENGTH > 0
      modifies this`state, buffer
      ensures LastBegun(n)
    {
      ghost var w := Whole(|message|);
      buffer[used] := 0x80;
      var usedspace := used + 1;
      assert buffer[..usedspace] == message[w..] + [0x80];
      assert message[..w] == Padded(message)[..w];
      if usedspace <= SHORT_BLOCK_LENGTH {
        n := w;
        PadShort(usedspace);
      } else {
        n := w + BLOCK_LENGTH;
        PadLong(usedspace);
      }
    }

    method PadShort(usedspace: nat)
      requires 0 < usedspace <= SHORT_BLOCK_LENGTH && usedspace == |message| % BLOCK_LENGTH + 1
      requires Chained(Padded(message), Whole(|message|)) && buffer[..usedspace] == message[Whole(|message|)..] + [0x80]
      modifies buffer
      ensures LastBegun(Whole(|message|))
    {
      ShortPad(message);
      Store(usedspace, Zeros(SHORT_BLOCK_LENGTH - usedspace));
      assert buffer[..SHORT_BLOCK_LENGTH]
        == message[Whole(|message|)..] + [0x80] + Zeros(SHORT_BLOCK_LENGTH - usedspace);
    }

    method PadLong(usedspace: nat)
      requires SHORT_BLOCK_LENGTH < usedspace <= BLOCK_LENGTH && usedspace == |message| % BLOCK_LENGTH + 1
      requires Chained(Padded(message), Whole(|message|)) && buffer[..usedspace] == message[Whole(|message|)..] + [0x80]
      modifies this`state, buffer
      ensures LastBegun(Whole(|message|) + BLOCK_LENGTH)
    {
      LongPad(message);
      ClearFrom(usedspace);
      Absorb(buffer[..], Padded(message), Whole(|message|));
      ClearShort();
    }

    method ClearFrom(usedspace: nat)
      requires buffer.Length == BLOCK_LENGTH && usedspace <= BLOCK_LENGTH
      modifies buffer
      ensures buffer[..] == old(buffer[..usedspace]) + Zeros(BLOCK_LENGTH - usedspace)
    {
      if usedspace < BLOCK_LENGTH {
        Store(usedspace, Zeros(BLOCK_LENGTH - usedspace));
      }
    }

    method ClearShort()
      requires buffer.Length == BLOCK_LENGTH
      modifies buffer
      ensures buffer[..SHORT_BLOCK_LENGTH] == Zeros(SHORT_BLOCK_LENGTH)
    {
      Store(0, Zeros(SHORT_BLOCK_LENGTH));
    }
  }

  function Padded(m: seq<Byte>): seq<Byte> { m + Padding(|m|) }

  /** The padding fits into the last block. */
  lemma ShortPad(m: seq<Byte>)
    requires |m| % BLOCK_LENGTH < SHORT_BLOCK_LENGTH
    ensures var w, p := Whole(|m|), Padded(m);
      && |p| == w + BLOCK_LENGTH
      && p[w..w + SHORT_BLOCK_LENGTH] == m[w..] + [0x80] + Zeros(SHORT_BLOCK_LENGTH - 1 - |m| % BLOCK_LENGTH)
      && p[w + SHORT_BLOCK_LENGTH..] == BigEndian(8 * |m|, 8)
  {
  }

  /** The padding needs one more block. */
  lemma LongPad(m: seq<Byte>)
    requires |m| % BLOCK_LENGTH >= SHORT_BLOCK_LENGTH
    ensures var w, p := Whole(|m|), Padded(m);
      && |p| == w + 2 * BLOCK_LENGTH
      && p[w..w + BLOCK_LENGTH] == m[w..] + [0x80] + Zeros(BLOCK_LENGTH - 1 - |m| % BLOCK_LENGTH)
      && p[w + BLOCK_LENGTH..w + BLOCK_LENGTH + SHORT_BLOCK_LENGTH] == Zeros(SHORT_BLOCK_LENGTH)
      && p[w + BLOCK_LENGTH + SHORT_BLOCK_LENGTH..] == BigEndian(8 * |m|, 8)
  {
    var w, u := Whole(|m|), |m| % BLOCK_LENGTH;
    var first, zeros := m[w..] + [0x80] + Zeros(BLOCK_LENGTH - 1 - u), Zeros(SHORT_BLOCK_LENGTH);
    assert Zeros(ZeroCount(|m|)) == Zeros(BLOCK_LENGTH - 1 - u) + zeros;
    assert m == m[..w] + m[w..];
    assert Padded(m) == m[..w] + first + zeros + BigEndian(8 * |m|, 8);
  }

  // ---------- Appending to a message ----------

  /** The data do not fill the buffer. */
  lemma Saved(m: seq<Byte>, data: seq<Byte>, used: nat, before: seq<Byte>, after: seq<Byte>)
    requires |before| == BLOCK_LENGTH && used == |m| % BLOCK_LENGTH && used + |data| < BLOCK_LENGTH
    requires before[..used] == m[Whole(|m|)..] && after == before[..used] + data + before[used + |data|..]
    ensures Whole(|m + data|) == Whole(|m|) && (m + data)[..Whole(|m|)] == m[..Whole(|m|)]
    ensures after[..used + |data|] == (m + data)[Whole(|m|)..]
  {
  }

  /** The data complete the block in the buffer. */
  lemma Completed(m: seq<Byte>, data: seq<Byte>, used: nat, before: seq<Byte>, after: seq<Byte>)
    requires |before| == BLOCK_LENGTH && used == |m| % BLOCK_LENGTH > 0 && used + |data| >= BLOCK_LENGTH
    requires before[..used] == m[Whole(|m|)..] && after == before[..used] + data[..BLOCK_LENGTH - used] + []
    ensures var w := Whole(|m|);
      && w + BLOCK_LENGTH <= |m + data| && after == (m + data)[w..w + BLOCK_LENGTH]
      && (m + data)[w + BLOCK_LENGTH..] == data[BLOCK_LENGTH - used..]
      && (m + data)[..w] == m[..w]
  {
  }

  // ---------- Chunks ----------

  lemma BlockChained(k: seq<Word>, m: seq<Byte>, n: nat)
    requires |k| == 64 && n + BLOCK_LENGTH <= |m| && n % BLOCK_LENGTH == 0
    ensures Chain(k, INITIAL, m[..n + BLOCK_LENGTH]) == Compress(k, Chain(k, INITIAL, m[..n]), m[n..n + BLOCK_LENGTH])
  {
    assert m[..n + BLOCK_LENGTH] == m[..n] + m[n..n + BLOCK_LENGTH];
    ChainConcat(k, INITIAL, m[..n], m[n..n + BLOCK_LENGTH], n / BLOCK_LENGTH);
    ChainOne(k, Chain(k, INITIAL, m[..n]), m[n..n + BLOCK_LENGTH]);
  }

  function Flatten(chunks: seq<seq<Byte>>): seq<Byte> {
    if chunks == [] then [] else Flatten(chunks[..|chunks| - 1]) + chunks[|chunks| - 1]
  }

  lemma {:induction false} FlattenMonotone(chunks: seq<seq<Byte>>, n: nat)
    requires n <= |chunks|
    ensures |Flatten(chunks[..n])| <= |Flatten(chunks)|
    decreases |chunks| - n
  {
    if n < |chunks| {
      assert chunks[..n + 1][..n] == chunks[..n];
      FlattenMonotone(chunks, n + 1);
    } else {
      assert chunks[..n] == chunks;
    }
  }

  /** However a message is cut into chunks, the result is the hash of section 6.2 of the whole message. */
  method HashChunks(chunks: seq<seq<Byte>>) returns (digest: Vars)
    requires |Flatten(chunks)| < LIMIT
    ensures digest == Hash(K256, Flatten(chunks))
  {
    var ctx := new Sha256Ctx();
    var i := 0;
    while i < |chunks|
      invariant 0 <= i <= |chunks| && ctx.Valid() && ctx.k == K256 && fresh(ctx) && fresh(ctx.buffer)
      invariant ctx.message == Flatten(chunks[..i])
    {
      assert chunks[..i + 1][..i] == chunks[..i];
      FlattenMonotone(chunks, i + 1);
      ctx.Update(chunks[i]);
      i := i + 1;
    }
    assert chunks[..i] == chunks;
    digest := ctx.Final();
  }
}
