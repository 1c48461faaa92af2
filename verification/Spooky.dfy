/**
  * Hashing a message in pieces and all at once
  * (TMPL_FIX_HASHMAP/src/spooky_hash.c:301-521).  The three mixing functions are
  * parameters: nothing is used of them but that they are functions.
  */
module Spooky {
  type Byte = bv8
  type Word = bv64
  type Bytes = seq<Byte>
  type Vars = v: seq<Word> | |v| == 12 witness seq(12, _ => 0)

  const BLOCK := 96
  const BUF := 192
  const SC_CONST: Word := 0xdead_beef_dead_beef

  datatype Mixers = Mixers(mix: (Bytes, Vars) -> Vars, end: Vars -> Vars, short: (Bytes, Word, Word) -> (Word, Word))

  function StartVars(s1: Word, s2: Word): Vars {
    [s1, s2, SC_CONST, s1, s2, SC_CONST, s1, s2, SC_CONST, s1, s2, SC_CONST]
  }

  /** The first n blocks of m mixed into h. */
  function Mixed(f: Mixers, h: Vars, m: Bytes, n: nat): Vars
    requires BLOCK * n <= |m|
  {
    if n == 0 then h else f.mix(m[BLOCK * (n - 1)..BLOCK * n], Mixed(f, h, m, n - 1))
  }

  /** A partial block, filled up with zeros, its length in the last byte. */
  function Padded(tail: Bytes): (r: Bytes)
    requires |tail| < BLOCK
    ensures |r| == BLOCK
  {
    (tail + seq(BLOCK - |tail|, _ => 0))[BLOCK - 1 := |tail| as Byte]
  }

  lemma PaddedKeeps(tail: Bytes)
    requires |tail| < BLOCK
    ensures Padded(tail)[..|tail|] == tail
  {}

  lemma ByteIs(n: nat, b: Byte)
    requires n < 96 && b == n as Byte
    ensures b as int == n
  {
    hide *;
  }

  lemma LengthByte(tail: Bytes)
    requires |tail| < BLOCK
    ensures Padded(tail)[BLOCK - 1] as int == |tail|
  {
    ByteIs(|tail|, Padded(tail)[BLOCK - 1]);
  }

  /** Different tails are padded differently, also where one is the other with zeros behind it. */
  lemma PaddedApart(a: Bytes, b: Bytes)
    requires |a| < BLOCK && |b| < BLOCK && Padded(a) == Padded(b)
    ensures a == b
  {
    hide Padded;
    PaddedKeeps(a);
    PaddedKeeps(b);
    LengthByte(a);
    LengthByte(b);
  }

  /** So what is mixed in of a message - its whole blocks and the padded rest - tells which message it was. */
  lemma InputsApart(a: Bytes, b: Bytes, n: nat)
    requires |a| / BLOCK == |b| / BLOCK == n
    requires a[..BLOCK * n] == b[..BLOCK * n] && Padded(a[BLOCK * n..]) == Padded(b[BLOCK * n..])
    ensures a == b
  {
    hide Padded;
    PaddedApart(a[BLOCK * n..], b[BLOCK * n..]);
    assert a == a[..BLOCK * n] + a[BLOCK * n..];
    assert b == b[..BLOCK * n] + b[BLOCK * n..];
  }

  /** What the hash of a message is. */
  function Hash(f: Mixers, m: Bytes, s1: Word, s2: Word): (Word, Word) {
    if |m| < BUF then f.short(m, s1, s2)
    else
      var n := |m| / BLOCK;
      var h := f.end(f.mix(Padded(m[BLOCK * n..]), Mixed(f, StartVars(s1, s2), m, n)));
      (h[0], h[1])
  }

  lemma {:induction false} MixedPrefix(f: Mixers, h: Vars, m: Bytes, m': Bytes, n: nat)
    requires BLOCK * n <= |m| <= |m'| && m'[..|m|] == m
    ensures Mixed(f, h, m', n) == Mixed(f, h, m, n)
  {
    if n > 0 {
      MixedPrefix(f, h, m, m', n - 1);
      assert m'[..|m|][BLOCK * (n - 1)..BLOCK * n] == m'[BLOCK * (n - 1)..BLOCK * n];
      assert m'[BLOCK * (n - 1)..BLOCK * n] == m[BLOCK * (n - 1)..BLOCK * n];
    }
  }

  /** spooky_hash128: all at once. */
  method Hash128(f: Mixers, m: Bytes, hash1: Word, hash2: Word) returns (r: (Word, Word))
    ensures r == Hash(f, m, hash1, hash2)
  {
    if |m| < BUF {
      return f.short(m, hash1, hash2);
    }
    var h := StartVars(hash1, hash2);
    var u, endp := 0, |m| / BLOCK;
    while u < endp
      invariant 0 <= u <= endp && h == Mixed(f, StartVars(hash1, hash2), m, u)
    {
      h := f.mix(m[BLOCK * u..BLOCK * u + BLOCK], h);
      u := u + 1;
    }
    h := f.end(f.mix(Padded(m[BLOCK * endp..]), h));
    r := (h[0], h[1]);
  }

  /** Mixing a message after another one, block by block. */
  lemma {:induction false} MixedConcat(f: Mixers, h: Vars, a: Bytes, i: nat, b: Bytes, j: nat)
    requires |a| == BLOCK * i && BLOCK * j <= |b|
    ensures Mixed(f, h, a + b, i + j) == Mixed(f, Mixed(f, h, a, i), b, j)
  {
    if j == 0 {
      assert (a + b)[..|a|] == a;
      MixedPrefix(f, h, a, a + b, i);
    } else {
      MixedConcat(f, h, a, i, b, j - 1);
      assert (a + b)[BLOCK * (i + j - 1)..BLOCK * (i + j)] == b[BLOCK * (j - 1)..BLOCK * j];
    }
  }

  /** What the streaming state says of the message so far. */
  ghost predicate Holds(f: Mixers, s1: Word, s2: Word, m: Bytes, blocks: nat, data: Bytes, state: Vars, remainder: nat) {
    && remainder < BUF && |m| == BLOCK * blocks + remainder && |data| == BUF
    && data[..remainder] == m[BLOCK * blocks..]
    && if |m| < BUF then blocks == 0 && state[0] == s1 && state[1] == s2
       else state == Mixed(f, StartVars(s1, s2), m[..BLOCK * blocks], blocks)
  }

  /** A fragment that is only stuffed away. */
  lemma StuffedAway(f: Mixers, s1: Word, s2: Word, m: Bytes, b: nat, data: Bytes, state: Vars, r: nat, fragment: Bytes, data': Bytes)
    requires Holds(f, s1, s2, m, b, data, state, r) && r + |fragment| < BUF && |data'| == BUF
    requires data'[..r + |fragment|] == data[..r] + fragment
    ensures Holds(f, s1, s2, m + fragment, b, data', state, r + |fragment|)
  {
    assert (m + fragment)[BLOCK * b..] == m[BLOCK * b..] + fragment;
    assert (m + fragment)[..BLOCK * b] == m[..BLOCK * b];
  }

  /** The message cut where the mixing stops. */
  lemma CutAt(m: Bytes, at: nat, data: Bytes, fragment: Bytes, mid: Bytes, rest: Bytes, n: nat)
    requires at <= |m| && data == m[at..] && mid + rest == data + fragment && n <= |rest|
    ensures m + fragment == m[..at] + mid + rest
    ensures (m + fragment)[..at + |mid| + n] == m[..at] + mid + rest[..n]
    ensures (m + fragment)[at + |mid| + n..] == rest[n..]
  {
    assert m == m[..at] + data;
    assert m + fragment == m[..at] + (mid + rest);
  }

  /** Mixing three stretches of blocks one after the other. */
  lemma MixedThrice(f: Mixers, h: Vars, a: Bytes, i: nat, b: Bytes, j: nat, c: Bytes, k: nat)
    requires |a| == BLOCK * i && |b| == BLOCK * j && BLOCK * k <= |c|
    ensures Mixed(f, h, a + b + c[..BLOCK * k], i + j + k) == Mixed(f, Mixed(f, Mixed(f, h, a, i), b, j), c, k)
  {
    hide Mixed;
    MixedConcat(f, h, a, i, b, j);
    MixedConcat(f, h, a + b, i + j, c[..BLOCK * k], k);
    MixedPrefix(f, Mixed(f, Mixed(f, h, a, i), b, j), c[..BLOCK * k], c, k);
  }

  lemma HoldsBounds(f: Mixers, s1: Word, s2: Word, m: Bytes, b: nat, data: Bytes, state: Vars, r: nat)
    requires Holds(f, s1, s2, m, b, data, state, r)
    ensures r < BUF && r <= |m| && |data| == BUF && (|m| < BUF ==> state[0] == s1 && state[1] == s2)
  {}

  lemma TwoBlocks(f: Mixers, h: Vars, m: Bytes)
    requires |m| == BUF
    ensures f.mix(m[BLOCK..], f.mix(m[..BLOCK], h)) == Mixed(f, h, m, 2)
  {
    assert Mixed(f, h, m, 1) == f.mix(m[BLOCK * 0..BLOCK * 1], Mixed(f, h, m, 0));
    assert m[BLOCK..] == m[BLOCK * 1..BLOCK * 2];
  }

  lemma NextBlock(f: Mixers, h: Vars, m: Bytes, n: nat)
    requires BLOCK * (n + 1) <= |m|
    ensures Mixed(f, h, m, n + 1) == f.mix(m[BLOCK * n..BLOCK * (n + 1)], Mixed(f, h, m, n))
  {}

  lemma NoBlocks(f: Mixers, h: Vars, m: Bytes)
    ensures Mixed(f, h, m, 0) == h
  {}

  /** Stuffed bytes and a fragment that are enough to mix: the stuffed bytes first,
      filled up to two blocks, then what is left of the fragment. */
  lemma MixedOn(f: Mixers, s1: Word, s2: Word, m: Bytes, b: nat, data: Bytes, state: Vars, r: nat, fragment: Bytes,
                h: Vars, mid: Bytes, k: nat, rest: Bytes, n: nat, h': Vars, data': Bytes)
    requires Holds(f, s1, s2, m, b, data, state, r) && r + |fragment| >= BUF
    requires h == if |m| < BUF then StartVars(s1, s2) else state
    requires |mid| == BLOCK * k && mid + rest == data[..r] + fragment && BLOCK * n <= |rest| < BLOCK * n + BLOCK
    requires h' == Mixed(f, Mixed(f, h, mid, k), rest, n)
    requires |data'| == BUF && data'[..|rest| - BLOCK * n] == rest[BLOCK * n..]
    ensures Holds(f, s1, s2, m + fragment, b + k + n, data', h', |rest| - BLOCK * n)
  {
    hide Mixed;
    var start, done := StartVars(s1, s2), m[..BLOCK * b];
    assert h == Mixed(f, start, done, b) by {
      if |m| < BUF {
        NoBlocks(f, start, done);
      }
    }
    MixedThrice(f, start, done, b, mid, k, rest, n);
    CutAt(m, BLOCK * b, data[..r], fragment, mid, rest, BLOCK * n);
  }

  /** The hash, from what is stuffed away and the variables. */
  lemma Finished(f: Mixers, s1: Word, s2: Word, m: Bytes, b: nat, data: Bytes, state: Vars, r: nat)
    requires Holds(f, s1, s2, m, b, data, state, r) && |m| >= BUF
    ensures var at, h := if r < BLOCK then 0 else BLOCK, if r < BLOCK then state else f.mix(data[..BLOCK], state);
      var e := f.end(f.mix(Padded(data[at..r]), h));
      Hash(f, m, s1, s2) == (e[0], e[1])
  {
    hide Mixed, Padded;
    MixedPrefix(f, StartVars(s1, s2), m[..BLOCK * b], m, b);
    if BLOCK <= r {
      NextBlock(f, StartVars(s1, s2), m, b);
      var stash := m[BLOCK * b..];
      assert m[BLOCK * b..BLOCK * (b + 1)] == stash[..BLOCK];
      assert m[BLOCK * (b + 1)..] == stash[BLOCK..];
      assert data[..BLOCK] == data[..r][..BLOCK] && data[BLOCK..r] == data[..r][BLOCK..];
    }
  }

  lemma FinishedShort(f: Mixers, s1: Word, s2: Word, m: Bytes, b: nat, data: Bytes, state: Vars, r: nat)
    requires Holds(f, s1, s2, m, b, data, state, r) && |m| < BUF
    ensures data[..|m|] == m
  {}

  /** Only the stuffed bytes of the buffer matter. */
  lemma StashKept(f: Mixers, s1: Word, s2: Word, m: Bytes, b: nat, data: Bytes, state: Vars, r: nat, data': Bytes)
    requires Holds(f, s1, s2, m, b, data, state, r) && |data'| == |data| && data'[..r] == data[..r]
    ensures Holds(f, s1, s2, m, b, data', state, r)
  {}

  /** SPOOKY_STATE */
  class State {
    const f: Mixers
    const data: array<Byte>
    var state: Vars
    var length: nat
    var remainder: nat
    ghost const s1: Word
    ghost const s2: Word
    ghost var message: Bytes
    ghost var blocks: nat // of the message, mixed

    ghost predicate Valid()
      reads this, data
    {
      && data.Length == BUF && length == |message|
      && Holds(f, s1, s2, message, blocks, data[..], state, remainder)
    }

    /** spooky_init */
    constructor (f: Mixers, seed1: Word, seed2: Word)
      ensures Valid() && message == [] && this.f == f && s1 == seed1 && s2 == seed2 && fresh(data)
    {
      this.f := f;
      data := new Byte[BUF](_ => 0);
      state := StartVars(seed1, seed2);
      length, remainder := 0, 0;
      s1, s2 := seed1, seed2;
      message, blocks := [], 0;
    }

    /** A memcpy into m_data. */
    method Copy(at: nat, src: Bytes)
      requires at + |src| <= data.Length
      modifies data
      ensures data[..] == old(data[..at]) + src + old(data[at + |src|..])
    {
      forall i | at <= i < at + |src| {
        data[i] := src[i - at];
      }
    }

    /** The whole blocks of a fragment. */
    method MixBlocks(m: Bytes, h0: Vars) returns (h: Vars, n: nat)
      ensures n == |m| / BLOCK && h == Mixed(f, h0, m, n)
    {
      h, n := h0, 0;
      var endp := |m| / BLOCK;
      while n < endp
        invariant 0 <= n <= endp && h == Mixed(f, h0, m, n)
      {
        h := f.mix(m[BLOCK * n..BLOCK * (n + 1)], h);
        n := n + 1;
      }
    }

    /** The stuffed bytes, filled up to two blocks; what is left of the fragment. */
    method UseStash(fragment: Bytes, h0: Vars) returns (h: Vars, rest: Bytes, ghost mid: Bytes, ghost k: nat)
      requires data.Length == BUF && remainder < BUF <= remainder + |fragment|
      modifies data
      ensures |mid| == BLOCK * k && mid + rest == old(data[..remainder]) + fragment
      ensures h == Mixed(f, h0, mid, k)
    {
      hide Mixed, Holds;
      h, rest := h0, fragment;
      if remainder != 0 {
        var prefix := BUF - remainder;
        Copy(remainder, fragment[..prefix]);
        rest := fragment[prefix..];
        mid, k := data[..], 2;
        TwoBlocks(f, h0, mid);
        h := f.mix(data[BLOCK..], f.mix(data[..BLOCK], h));
        assert fragment == fragment[..prefix] + rest;
      } else {
        mid, k := [], 0;
        NoBlocks(f, h0, []);
      }
    }

    /** spooky_update: the message grows by the fragment, whatever the fragment's length. */
    method Update(fragment: Bytes)
      requires Valid()
      modifies this`state, this`length, this`remainder, this`message, this`blocks, data
      ensures Valid() && message == old(message) + fragment
    {
      hide Holds, Mixed;
      ghost var before := data[..];
      HoldsBounds(f, s1, s2, message, blocks, before, state, remainder);
      var newLength := |fragment| + remainder;
      if newLength < BUF {
        Copy(remainder, fragment);
        StuffedAway(f, s1, s2, message, blocks, before, state, remainder, fragment, data[..]);
        remainder := newLength;
      } else {
        var h := if length < BUF then StartVars(state[0], state[1]) else state;
        var h1, rest, mid, k := UseStash(fragment, h);
        var h2, n := MixBlocks(rest, h1);
        Copy(0, rest[BLOCK * n..]);
        MixedOn(f, s1, s2, message, blocks, before, state, remainder, fragment, h, mid, k, rest, n, h2, data[..]);
        blocks := blocks + k + n;
        remainder := |rest| - BLOCK * n;
        state := h2;
      }
      length := |fragment| + length;
      message := message + fragment;
    }

    /** spooky_final: the hash of the message so far. A message of less than two blocks is
        hashed with the seeds given here, not with those given at the start.
        The stream can be continued. */
    method Final(hash1: Word, hash2: Word) returns (r: (Word, Word))
      requires Valid()
      modifies data
      ensures Valid()
      ensures r == if length < BUF then Hash(f, message, hash1, hash2) else Hash(f, message, s1, s2)
    {
      hide Holds, Mixed, Padded;
      ghost var before := data[..];
      HoldsBounds(f, s1, s2, message, blocks, before, state, remainder);
      if length < BUF {
        FinishedShort(f, s1, s2, message, blocks, before, state, remainder);
        return f.short(data[..length], hash1, hash2);
      }
      Finished(f, s1, s2, message, blocks, before, state, remainder);
      hide Hash;
      var h, at := state, 0;
      if remainder >= BLOCK {
        h := f.mix(data[..BLOCK], h);
        at := BLOCK;
      }
      var padded := Padded(data[at..remainder]);
      PaddedKeeps(data[at..remainder]);
      Copy(at, padded);
      StashKept(f, s1, s2, message, blocks, before, state, remainder, data[..]);
      assert data[at..at + BLOCK] == padded;
      h := f.end(f.mix(data[at..at + BLOCK], h));
      r := (h[0], h[1]);
    }
  }

  function Joined(pieces: seq<Bytes>): Bytes {
    if pieces == [] then [] else Joined(pieces[..|pieces| - 1]) + pieces[|pieces| - 1]
  }

  /** However a message is cut, hashing the pieces is hashing the message. */
  method HashPieces(f: Mixers, pieces: seq<Bytes>, hash1: Word, hash2: Word) returns (r: (Word, Word))
    ensures r == Hash(f, Joined(pieces), hash1, hash2)
  {
    var s := new State(f, hash1, hash2);
    for i := 0 to |pieces|
      invariant s.Valid() && fresh(s) && fresh(s.data) && s.f == f && s.s1 == hash1 && s.s2 == hash2
      invariant s.message == Joined(pieces[..i])
    {
      s.Update(pieces[i]);
      assert pieces[..i + 1][..i] == pieces[..i];
    }
    assert pieces[..|pieces|] == pieces;
    r := s.Final(hash1, hash2);
  }
}
