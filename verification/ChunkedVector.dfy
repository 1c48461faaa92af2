/**
  * Vectors that are built chunk by chunk
  * (experimental/cuda_files/Q_RUNTIME_src_core_vec.c:204-250, 576-655, 794-1143, 1293-1329).
  * Writing a buffer to the vector's file is appending to a sequence.
  */
module Chunks {
  function Least(a: nat, b: nat): nat {
    if a < b then a else b
  }

  /** The position of the first element of a chunk. */
  function Start(chunkNum: nat, chunkSize: nat): nat {
    chunkNum * chunkSize
  }

  lemma StartNext(chunkNum: nat, chunkSize: nat)
    ensures Start(chunkNum + 1, chunkSize) == Start(chunkNum, chunkSize) + chunkSize && Start(0, chunkSize) == 0
  {}

  function ChunkOf(idx: nat, chunkSize: nat): nat
    requires chunkSize > 0
  {
    idx / chunkSize
  }

  function Offset(idx: nat, chunkSize: nat): nat
    requires chunkSize > 0
  {
    idx % chunkSize
  }

  /** An index, split into chunk and index within the chunk. */
  lemma Split(idx: nat, chunkSize: nat, chunkNum: nat, inChunk: nat)
    requires chunkSize > 0 && inChunk <= chunkSize
    ensures idx == Start(ChunkOf(idx, chunkSize), chunkSize) + Offset(idx, chunkSize) && Offset(idx, chunkSize) < chunkSize
    ensures ChunkOf(idx, chunkSize) < chunkNum ==> Start(ChunkOf(idx, chunkSize), chunkSize) + chunkSize <= Start(chunkNum, chunkSize)
    ensures idx <= Start(chunkNum, chunkSize) + inChunk ==>
      ChunkOf(idx, chunkSize) <= chunkNum || (inChunk == chunkSize && idx == Start(chunkNum + 1, chunkSize) && Offset(idx, chunkSize) == 0)
  {
    var c := ChunkOf(idx, chunkSize);
    assert idx == c * chunkSize + Offset(idx, chunkSize);
    if c < chunkNum {
      assert (c + 1) * chunkSize <= chunkNum * chunkSize;
    }
    if c > chunkNum {
      assert c * chunkSize >= (chunkNum + 1) * chunkSize;
    }
  }

  /** The elements that are in a chunk, behind those of the chunks before it. */
  ghost predicate Live<T>(all: seq<T>, chunkNum: nat, chunkSize: nat, inChunk: nat, chunk: seq<T>) {
    && inChunk <= chunkSize && |all| == Start(chunkNum, chunkSize) + inChunk
    && (inChunk > 0 ==> |chunk| == chunkSize && chunk[..inChunk] == all[Start(chunkNum, chunkSize)..])
  }

  lemma Appended<T>(all: seq<T>, chunkNum: nat, chunkSize: nat, inChunk: nat, chunk: seq<T>, more: seq<T>, chunk': seq<T>)
    requires Live(all, chunkNum, chunkSize, inChunk, chunk) && inChunk + |more| <= chunkSize
    requires |chunk'| == |chunk| == chunkSize && chunk'[..inChunk + |more|] == chunk[..inChunk] + more
    ensures Live(all + more, chunkNum, chunkSize, inChunk + |more|, chunk') && Start(chunkNum, chunkSize) <= |all|
    ensures (all + more)[..Start(chunkNum, chunkSize)] == all[..Start(chunkNum, chunkSize)]
  {
    var s := Start(chunkNum, chunkSize);
    assert (all + more)[s..] == all[s..] + more;
    assert inChunk == 0 ==> all[s..] == [] && chunk[..inChunk] == [];
  }

  /** A stretch of the chunk is a stretch of all elements. */
  lemma ChunkSlice<T>(all: seq<T>, chunkNum: nat, chunkSize: nat, inChunk: nat, chunk: seq<T>, at: nat, k: nat)
    requires Live(all, chunkNum, chunkSize, inChunk, chunk)
    ensures var idx := Start(chunkNum, chunkSize) + at;
      && |all| - idx == inChunk - at
      && (at + k <= inChunk && k > 0 ==> |chunk| == chunkSize && chunk[at..at + k] == all[idx..idx + k])
  {
    var s := Start(chunkNum, chunkSize);
    hide Start;
    if at + k <= inChunk && k > 0 {
      assert chunk[..inChunk][at..at + k] == chunk[at..at + k];
      assert all[s..][at..at + k] == all[s + at..s + at + k];
    }
  }

  lemma Flushed<T>(all: seq<T>, chunkNum: nat, chunkSize: nat, chunk: seq<T>, chunk': seq<T>)
    requires Live(all, chunkNum, chunkSize, chunkSize, chunk)
    ensures Live(all, chunkNum + 1, chunkSize, 0, chunk') && Start(chunkNum + 1, chunkSize) == |all|
    ensures chunkSize > 0 ==> all == all[..Start(chunkNum, chunkSize)] + chunk[..chunkSize]
  {
    StartNext(chunkNum, chunkSize);
  }
}

/** Vectors of fields of whole bytes. */
module Vectors {
  import opened Chunks

  const TWO32 := 0x1_0000_0000

  /** 32-bit subtraction. */
  function Minus32(a: nat, b: nat): (r: nat)
    requires a < TWO32 && b < TWO32
    ensures r < TWO32 && (r - (a - b)) % TWO32 == 0
  {
    if b <= a then a - b else a - b + TWO32
  }

  /** Where the address points that a reader gets. */
  datatype Place = Nowhere | InChunk | InFile | InCopy

  class Vec<T> {
    const chunkSize: nat
    const zero: T
    var isMemo: bool
    var isNascent: bool
    var isEov: bool
    var openMode: nat
    var chunk: array?<T>
    var numInChunk: nat
    var chunkNum: nat
    var numElements: nat
    var file: seq<T>
    ghost var appended: seq<T>

    ghost function InMemory(): seq<T>
      reads this, chunk
    {
      if chunk == null then [] else chunk[..]
    }

    /** File contents and live part of the chunk are what has been appended. */
    ghost predicate Consistent()
      reads this, chunk
    {
      && chunkSize > 0 && numElements == |appended| && openMode <= 1
      && (chunk != null ==> chunk.Length == chunkSize)
      && numInChunk <= chunkSize && (isNascent || isEov) && (isNascent ==> openMode == 0)
      && (isNascent && numElements > 0 ==> chunk != null)
      && (isNascent ==> Live(appended, chunkNum, chunkSize, numInChunk, InMemory()))
      && file == if !isMemo then [] else if isEov then appended else FlushedPart()
    }

    /** Besides, a full chunk is flushed only when there is more to append. */
    ghost predicate Valid()
      reads this, chunk
    {
      Consistent() && (isNascent && chunkNum > 0 ==> numInChunk > 0)
    }

    /** What is in the chunks before the present one. */
    ghost function FlushedPart(): seq<T>
      reads this
    {
      if Start(chunkNum, chunkSize) <= |appended| then appended[..Start(chunkNum, chunkSize)] else []
    }

    /** vec_new, without a file. */
    constructor (chunkSize: nat, isMemo: bool, zero: T)
      requires chunkSize > 0
      ensures Valid() && appended == [] && isNascent && !isEov && this.isMemo == isMemo && this.chunkSize == chunkSize
      ensures chunk == null
    {
      this.chunkSize, this.isMemo, this.zero := chunkSize, isMemo, zero;
      isNascent, isEov, openMode := true, false, 0;
      chunk := null;
      numInChunk, chunkNum, numElements := 0, 0, 0;
      file, appended := [], [];
    }

    /** vec_memo: only as long as nothing has been flushed. */
    method Memo(isMemo: bool) returns (ok: bool)
      requires Valid()
      modifies this`isMemo
      ensures Valid() && ok == (!isEov && chunkNum == 0) && this.isMemo == if ok then isMemo else old(this.isMemo)
    {
      StartNext(chunkNum, chunkSize);
      ok := !isEov && chunkNum == 0;
      if ok {
        this.isMemo := isMemo;
      }
    }

    /** flush_buffer, of a full chunk. */
    method FlushBuffer()
      requires Consistent() && isNascent && !isEov && chunk != null && numInChunk == chunkSize
      modifies this`file, this`numInChunk, this`chunkNum, chunk
      ensures Consistent() && numInChunk == 0
    {
      Flushed(appended, chunkNum, chunkSize, chunk[..], chunk[..]);
      if isMemo {
        file := file + chunk[..numInChunk];
      }
      numInChunk := 0;
      chunkNum := chunkNum + 1;
      forall i | 0 <= i < chunk.Length {
        chunk[i] := zero;
      }
    }

    /** A memcpy into the chunk. */
    method Fill(more: seq<T>)
      requires Consistent() && isNascent && !isEov && chunk != null && numInChunk + |more| <= chunkSize
      modifies this`numInChunk, this`numElements, this`appended, chunk
      ensures Consistent() && appended == old(appended) + more && numInChunk == old(numInChunk) + |more|
    {
      ghost var before := chunk[..];
      var n := numInChunk;
      forall i | n <= i < n + |more| {
        chunk[i] := more[i - n];
      }
      assert chunk[..n + |more|] == before[..n] + more;
      Appended(appended, chunkNum, chunkSize, numInChunk, before, more, chunk[..]);
      numInChunk := numInChunk + |more|;
      numElements := numElements + |more|;
      appended := appended + more;
    }

    lemma Room()
      requires Consistent()
      ensures numInChunk <= chunkSize && chunkSize > 0
    {}

    method Allocate()
      requires Consistent() && isNascent && chunk == null
      modifies this`chunk
      ensures Consistent() && chunk != null && fresh(chunk)
    {
      chunk := new T[chunkSize](_ => zero);
    }

    /** vec_add: any number of elements. */
    method Add(items: seq<T>) returns (ok: bool)
      requires Valid()
      modifies this, chunk
      ensures Valid() && ok == (items != [] && old(isNascent) && !old(isEov))
      ensures appended == old(appended) + if ok then items else []
      ensures (chunk == old(chunk) || fresh(chunk)) && isMemo == old(isMemo) && isEov == old(isEov) && isNascent == old(isNascent)
    {
      hide Consistent;
      assert appended + [] == appended;
      if items == [] || !isNascent || isEov {
        return false;
      }
      if chunk == null {
        Allocate();
      }
      var copied: nat := 0;
      assert items[..0] == [];
      while copied < |items|
        invariant copied <= |items| && Consistent() && isNascent && !isEov && chunk != null
        invariant copied == |items| ==> numInChunk > 0
        invariant appended == old(appended) + items[..copied]
        invariant (chunk == old(chunk) || fresh(chunk)) && isMemo == old(isMemo)
        decreases |items| - copied, numInChunk
      {
        Room();
        var space := chunkSize - numInChunk;
        if space == 0 {
          FlushBuffer();
        } else {
          var n := Least(space, |items| - copied);
          Fill(items[copied..copied + n]);
          assert items[..copied] + items[copied..copied + n] == items[..copied + n];
          copied := copied + n;
        }
      }
      assert items[..copied] == items;
      ok := true;
    }

    /** vec_eov: no more elements; what is in memory goes to the file. */
    method Eov() returns (ok: bool)
      requires Valid()
      modifies this`isEov, this`file
      ensures Valid() && ok && isEov
    {
      ok := true;
      if isEov {
        return;
      }
      StartNext(chunkNum, chunkSize);
      if numElements == 0 {
        isEov := true;
        return;
      }
      if chunk == null {
        ok := false;
      } else {
        isEov := true;
        ghost var s := Start(chunkNum, chunkSize);
        assert appended == appended[..s] + appended[s..];
        if isMemo {
          file := file + chunk[..numInChunk];
        }
      }
    }

    /** vec_clean_chunk: the chunk is given up. */
    method CleanChunk()
      requires Valid() && isEov
      modifies this`chunkNum, this`numInChunk, this`isNascent
      ensures Valid() && !isNascent
    {
      chunkNum, numInChunk, isNascent := 0, 0, false;
    }

    /** Whether a request can be met from the chunk, from the file, or by copying a chunk
        from the file. */
    ghost function Source(idx: nat, len: nat, copy: array?<T>): Place
      requires Valid()
      reads this, chunk
    {
      if len == 0 && !isEov then Nowhere
      else if isNascent && (!isEov || numElements == 0 || ChunkOf(idx, chunkSize) == chunkNum) then
        if ChunkOf(idx, chunkSize) == chunkNum then
          if Offset(idx, chunkSize) + len <= chunkSize then InChunk else Nowhere
        else if !isEov && ChunkOf(idx, chunkSize) < chunkNum && isMemo && Offset(idx, chunkSize) == 0 && len == chunkSize && copy != null then InCopy
        else Nowhere
      else if file != [] && (len == 0 || idx < numElements) then InFile
      else Nowhere
    }

    /** The chunk in memory is the one that idx is in; it is the chunk of the last element. */
    ghost predicate InHand(idx: nat)
      requires chunkSize > 0
      reads this
    {
      isNascent && ChunkOf(idx, chunkSize) == if appended == [] then 0 else ChunkOf(|appended| - 1, chunkSize)
    }

    /**
      * Which requests are met, in terms of what has been appended.  In the chunk in
      * memory: those that do not reach beyond the chunk.  Elsewhere, of a memoised
      * vector: after the end those that begin at an element, or ask for all if there
      * is one; before the end only whole chunks, given a buffer to copy them to.  A
      * request for all is not met before the end, nor anything out of hand of a vector
      * that is not memoised.
      */
    lemma RequestMet(idx: nat, len: nat, copy: array?<T>)
      requires Valid()
      ensures InHand(idx) && (isEov || len > 0) ==> (Source(idx, len, copy) != Nowhere <==> Offset(idx, chunkSize) + len <= chunkSize)
      ensures !InHand(idx) && isMemo && isEov && len > 0 ==> (Source(idx, len, copy) != Nowhere <==> idx < |appended|)
      ensures !InHand(idx) && isMemo && isEov && len == 0 ==> (Source(idx, len, copy) != Nowhere <==> appended != [])
      ensures !InHand(idx) && isMemo && !isEov ==>
                (Source(idx, len, copy) != Nowhere <==>
                   len == chunkSize && Offset(idx, chunkSize) == 0 && idx + len <= |appended| && copy != null)
      ensures (!InHand(idx) && !isMemo) || (!isEov && len == 0) ==> Source(idx, len, copy) == Nowhere
    {
      hide Start;
      if isNascent {
        LastChunk();
        EarlierChunk(idx);
      }
    }

    lemma LastChunk()
      requires Valid() && isNascent
      ensures chunkNum == if appended == [] then 0 else ChunkOf(|appended| - 1, chunkSize)
    {
      hide Start;
      StartNext(chunkNum, chunkSize);
      if appended != [] {
        assert |appended| == Start(chunkNum, chunkSize) + numInChunk && numInChunk > 0;
        InChunkNum(|appended| - 1, chunkNum);
      } else {
        NotYetFlushed();
      }
    }

    lemma NotYetFlushed()
      requires Valid() && isNascent && appended == []
      ensures chunkNum == 0
    {
      assert chunkNum * chunkSize + numInChunk == 0;
    }

    lemma InChunkNum(i: nat, c: nat)
      requires chunkSize > 0 && Start(c, chunkSize) <= i < Start(c, chunkSize) + chunkSize
      ensures ChunkOf(i, chunkSize) == c
    {
      var d := ChunkOf(i, chunkSize);
      assert i == d * chunkSize + i % chunkSize;
      assert d < c ==> (d + 1) * chunkSize <= c * chunkSize;
      assert d > c ==> d * chunkSize >= (c + 1) * chunkSize;
    }

    /** A whole chunk has been appended and is not the one in memory exactly when it comes before that one. */
    lemma EarlierChunk(idx: nat)
      requires Valid() && isNascent
      ensures Offset(idx, chunkSize) == 0 && ChunkOf(idx, chunkSize) != chunkNum ==>
                (ChunkOf(idx, chunkSize) < chunkNum <==> idx + chunkSize <= |appended|)
    {
      var d := ChunkOf(idx, chunkSize);
      assert idx == d * chunkSize + Offset(idx, chunkSize);
      if d < chunkNum {
        assert (d + 1) * chunkSize <= chunkNum * chunkSize;
      } else {
        assert d > chunkNum ==> d * chunkSize >= (chunkNum + 1) * chunkSize;
      }
    }

    /** What a reader is given: a stretch of elements at a place. */
    ghost predicate Shows(place: Place, from: nat, len: nat, copy: array?<T>, s: seq<T>)
      reads this, chunk, copy
    {
      match place
      case Nowhere => false
      case InChunk => if len == 0 then s == [] else chunk != null && from + len <= chunk.Length && s == chunk[from..from + len]
      case InFile => from + len <= |file| && s == file[from..from + len]
      case InCopy => from == 0 && copy != null && len <= copy.Length && s == copy[..len]
    }
  
    /** How many elements a request for len elements from idx is about; none stands for all:
        of the file, or of the chunk. */
    ghost function Wanted(idx: nat, len: nat, place: Place): nat
      reads this
    {
      if len == 0 && place == InFile then |appended|
      else if idx > |appended| then 0
      else if len == 0 then |appended| - idx
      else Least(len, |appended| - idx)
    }

    /** The given elements are those asked for. */
    ghost predicate Given(idx: nat, len: nat, place: Place, from: nat, retLen: nat, copy: array?<T>)
      reads this, chunk, copy
    {
      var at := if len == 0 && place == InFile then 0 else idx;
      retLen == Wanted(idx, len, place) && at + retLen <= |appended| && Shows(place, from, retLen, copy, appended[at..at + retLen])
    }

    /** From the chunk in memory. */
    method ServeChunk(idx: nat, chunkIdx: nat, len: nat, copy: array?<T>) returns (retLen: nat)
      requires Valid() && isNascent && idx == Start(chunkNum, chunkSize) + chunkIdx && chunkIdx + len <= chunkSize < TWO32
      ensures Given(idx, len, InChunk, chunkIdx, retLen, copy) <==> idx <= numElements
    {
      hide Live, Start, FlushedPart;
      var left := Minus32(numInChunk, chunkIdx);
      retLen := if len == 0 then left else Least(len, left);
      ChunkSlice(appended, chunkNum, chunkSize, numInChunk, InMemory(), chunkIdx, retLen);
    }

    /** From the file, mapped into memory. */
    method ServeFile(idx: nat, len: nat, copy: array?<T>) returns (place: Place, from: nat, retLen: nat)
      requires Valid() && !isNascent
      modifies this`openMode
      ensures Valid() && place == if file != [] && (len == 0 || idx < numElements) then InFile else Nowhere
      ensures place == InFile ==> Given(idx, len, InFile, from, retLen, copy)
    {
      place, from, retLen := Nowhere, 0, 0;
      if file == [] {
        return;
      }
      openMode := 1;
      if len == 0 {
        place, retLen := InFile, numElements;
      } else if idx < numElements {
        place, from, retLen := InFile, idx, Least(numElements - idx, len);
      }
    }

    /** A whole chunk that has been flushed, copied from the file. */
    method ServeCopy(idx: nat, copy: array<T>) returns (from: nat, retLen: nat)
      requires Valid() && isNascent && isMemo && !isEov && ChunkOf(idx, chunkSize) < chunkNum && Offset(idx, chunkSize) == 0
      requires copy != chunk && copy.Length >= chunkSize
      modifies copy
      ensures Valid() && Given(idx, chunkSize, InCopy, from, retLen, copy)
    {
      hide Start, ChunkOf, Offset;
      Split(idx, chunkSize, chunkNum, numInChunk);
      var n := chunkSize;
      forall i | 0 <= i < n {
        copy[i] := file[idx + i];
      }
      assert copy[..n] == appended[idx..idx + n];
      from, retLen := 0, n;
    }

    /** vec_get. A request that is met gives the elements asked for, before and after the
        end of the vector; except that one that is met from the chunk in memory does so if and
        only if it does not begin beyond the last element. */
    method Get(idx: nat, len: nat, copy: array?<T>) returns (place: Place, from: nat, retLen: nat)
      requires Valid() && chunkSize + len < TWO32 && (copy != null ==> copy != chunk && copy.Length >= len)
      modifies this`isNascent, this`chunkNum, this`numInChunk, this`openMode, copy
      ensures Valid() && place == old(Source(idx, len, copy))
      ensures place == InFile || place == InCopy ==> Given(idx, len, place, from, retLen, copy)
      ensures place == InChunk ==> (Given(idx, len, place, from, retLen, copy) <==> idx <= numElements)
      ensures isNascent == (old(isNascent) && !(isEov && chunk != null && ChunkOf(idx, chunkSize) != old(chunkNum)))
    {
      hide Valid, Start, Given, ChunkOf, Offset;
      place, from, retLen := Nowhere, 0, 0;
      States();
      if len == 0 && !isEov {
        return;
      }
      Split(idx, chunkSize, 0, 0);
      var num, chunkIdx := ChunkOf(idx, chunkSize), Offset(idx, chunkSize);
      if isNascent && isEov {
        if num == chunkNum && chunk != null {
          if chunkIdx + len <= chunkSize {
            place := InChunk;
            from := chunkIdx;
            retLen := ServeChunk(idx, chunkIdx, len, copy);
          }
          return;
        } else if chunk != null {
          CleanChunk();
        }
      }
      if !isNascent {
        place, from, retLen := ServeFile(idx, len, copy);
      } else if num == chunkNum {
        if chunkIdx + len <= chunkSize {
          place := InChunk;
          from := chunkIdx;
          retLen := ServeChunk(idx, chunkIdx, len, copy);
        }
      } else if num < chunkNum && isMemo && chunkIdx == 0 && len == chunkSize && copy != null {
        place := InCopy;
        from, retLen := ServeCopy(idx, copy);
      }
    }

    lemma States()
      requires Valid()
      ensures chunkSize > 0 && (isNascent || isEov) && (isNascent && numElements > 0 ==> chunk != null)
      ensures isNascent && numElements == 0 ==> chunkNum == 0 && numInChunk == 0 && (isEov ==> file == [])
    {}
  }
}

/** Vectors of bits, eight to a byte. */
module BitVectors {
  import opened Chunks

  type Byte = bv8

  function Mask(k: nat): Byte
    requires k < 8
  {
    if k < 4 then (if k < 2 then (if k == 0 then 1 else 2) else if k == 2 then 4 else 8)
    else if k < 6 then (if k == 4 then 16 else 32) else if k == 6 then 64 else 128
  }

  predicate BitOf(b: Byte, k: nat)
    requires k < 8
  {
    b & Mask(k) != 0
  }

  /** The masks are shifts of one. */
  lemma MaskIsShift(b: Byte, k: nat)
    requires k < 8
    ensures Mask(k) == 1 << k && (BitOf(b, k) <==> (b >> k) & 1 == 1)
  {
    if k == 0 {
    } else if k == 1 {
    } else if k == 2 {
    } else if k == 3 {
    } else if k == 4 {
    } else if k == 5 {
    } else if k == 6 {
    }
  }

  function Put(b: Byte, k: nat, v: bool): Byte
    requires k < 8
  {
    if v then b | Mask(k) else b & !Mask(k)
  }

  /** Setting or clearing a bit changes that bit only. */
  lemma PutBit(b: Byte, k: nat, v: bool, j: nat)
    requires k < 8 && j < 8
    ensures BitOf(Put(b, k, v), j) == if j == k then v else BitOf(b, j)
  {}

  function Bits(bytes: seq<Byte>): (r: seq<bool>)
    ensures |r| == 8 * |bytes|
  {
    seq(8 * |bytes|, i requires 0 <= i < 8 * |bytes| => BitOf(bytes[i / 8], i % 8))
  }

  /** Bytes copied to a place leave the bits before it, and put their own bits there. */
  lemma CopiedBits(before: seq<Byte>, at: nat, src: seq<Byte>, after: seq<Byte>, n: nat)
    requires at + |src| <= |before| && after == before[..at] + src + before[at + |src|..] && n <= 8 * |src|
    ensures Bits(after)[..8 * at + n] == Bits(before)[..8 * at] + Bits(src)[..n]
  {
    hide BitOf;
    forall i | 0 <= i < 8 * at + n
      ensures Bits(after)[i] == (Bits(before)[..8 * at] + Bits(src)[..n])[i]
    {
      if i >= 8 * at {
        assert i / 8 == at + (i - 8 * at) / 8 && i % 8 == (i - 8 * at) % 8;
      }
    }
  }

  /** One bit put in. */
  lemma OneBit(before: seq<Byte>, at: nat, v: bool, after: seq<Byte>)
    requires at < 8 * |before|
    requires after == before[at / 8 := Put(before[at / 8], at % 8, v)]
    ensures Bits(after)[..at + 1] == Bits(before)[..at] + [v]
  {
    hide BitOf, Put;
    forall i | 0 <= i <= at
      ensures Bits(after)[i] == (Bits(before)[..at] + [v])[i]
    {
      PutBit(before[at / 8], at % 8, v, i % 8);
    }
  }

  lemma BitAppended(all: seq<bool>, chunkNum: nat, chunkSize: nat, inChunk: nat, before: seq<Byte>, v: bool, after: seq<Byte>)
    requires Live(all, chunkNum, chunkSize, inChunk, Bits(before)) && inChunk < chunkSize == 8 * |before|
    requires after == before[inChunk / 8 := Put(before[inChunk / 8], inChunk % 8, v)]
    ensures Live(all + [v], chunkNum, chunkSize, inChunk + 1, Bits(after)) && Start(chunkNum, chunkSize) <= |all|
    ensures (all + [v])[..Start(chunkNum, chunkSize)] == all[..Start(chunkNum, chunkSize)]
  {
    hide Bits, Put, Start, Live;
    OneBit(before, inChunk, v, after);
    Appended(all, chunkNum, chunkSize, inChunk, Bits(before), [v], Bits(after));
  }

  /** A vector of bits that grows. */
  class BitVec {
    const chunkSize: nat // in bits
    const isMemo: bool
    var chunk: array?<Byte>
    var numInChunk: nat
    var chunkNum: nat
    var numElements: nat
    var file: seq<Byte>
    ghost var appended: seq<bool>

    ghost function InMemory(): seq<bool>
      reads this, chunk
    {
      if chunk == null then [] else Bits(chunk[..])
    }

    ghost function FlushedPart(): seq<bool>
      reads this
    {
      if Start(chunkNum, chunkSize) <= |appended| then appended[..Start(chunkNum, chunkSize)] else []
    }

    ghost predicate Valid()
      reads this, chunk
    {
      && chunkSize > 0 && chunkSize % 64 == 0 && numElements == |appended| && numInChunk <= chunkSize
      && (chunk != null ==> chunk.Length == chunkSize / 8)
      && Live(appended, chunkNum, chunkSize, numInChunk, InMemory())
      && Bits(file) == if isMemo then FlushedPart() else []
    }

    /** vec_new, for bits. */
    constructor (chunkSize: nat, isMemo: bool)
      requires chunkSize > 0 && chunkSize % 64 == 0
      ensures Valid() && appended == [] && this.isMemo == isMemo && this.chunkSize == chunkSize
      ensures chunk == null
    {
      this.chunkSize, this.isMemo := chunkSize, isMemo;
      chunk := null;
      numInChunk, chunkNum, numElements := 0, 0, 0;
      file, appended := [], [];
    }

    /** flush_buffer_B1: a full chunk goes to the file. */
    method FlushIfFull()
      requires Valid() && chunk != null
      modifies this`file, this`numInChunk, this`chunkNum, chunk
      ensures Valid() && numInChunk == if old(numInChunk) == chunkSize then 0 else old(numInChunk)
    {
      hide Bits;
      if numInChunk == chunkSize {
        Flushed(appended, chunkNum, chunkSize, InMemory(), InMemory());
        if isMemo {
          JoinedBits(file, chunk[..]);
          file := file + chunk[..];
        }
        numInChunk := 0;
        chunkNum := chunkNum + 1;
        forall i | 0 <= i < chunk.Length {
          chunk[i] := 0;
        }
      }
    }

    /** Whole bytes copied, of which n bits count. */
    method Fill(src: seq<Byte>, n: nat)
      requires Valid() && chunk != null && numInChunk % 8 == 0
      requires 0 < n && numInChunk + n <= chunkSize && 8 * |src| - 8 < n <= 8 * |src|
      modifies this`numInChunk, this`numElements, this`appended, chunk
      ensures Valid() && appended == old(appended) + Bits(src)[..n] && numInChunk == old(numInChunk) + n
    {
      hide Bits, Live, Start;
      ghost var before := chunk[..];
      var dst := numInChunk / 8;
      forall i | dst <= i < dst + |src| {
        chunk[i] := src[i - dst];
      }
      assert chunk[..] == before[..dst] + src + before[dst + |src|..];
      CopiedBits(before, dst, src, chunk[..], n);
      Appended(appended, chunkNum, chunkSize, numInChunk, Bits(before), Bits(src)[..n], Bits(chunk[..]));
      numInChunk := numInChunk + n;
      numElements := numElements + n;
      appended := appended + Bits(src)[..n];
    }

    /** The aligned case: as many whole bytes as fit, chunk after chunk. */
    method AddBytes(addr: seq<Byte>, len: nat)
      requires Valid() && chunk != null && numInChunk % 8 == 0 && len <= 8 * |addr|
      modifies this`file, this`numInChunk, this`chunkNum, this`numElements, this`appended, chunk
      ensures Valid() && appended == old(appended) + Bits(addr)[..len]
    {
      hide Valid, Bits;
      Room();
      var done: nat, at: nat := 0, 0;
      assert appended + Bits(addr)[..0] == appended;
      while done < len
        invariant Valid() && done <= len && at <= |addr|
        invariant done < len ==> done == 8 * at && numInChunk % 8 == 0
        invariant appended == old(appended) + Bits(addr)[..done]
      {
        FlushIfFull();
        Room();
        var space := chunkSize - numInChunk;
        var n := Least(len - done, space);
        var bytes := (n + 7) / 8;
        WholeBytes(len - done, chunkSize, numInChunk, n, bytes);
        Fill(addr[at..at + bytes], n);
        SomeBits(addr, at, bytes, n);
        done, at := done + n, at + bytes;
      }
    }

    lemma Room()
      requires Valid()
      ensures numInChunk <= chunkSize && chunkSize > 0 && chunkSize % 64 == 0
      ensures chunk != null ==> chunk.Length == chunkSize / 8
      ensures |InMemory()| == if chunk == null then 0 else chunkSize
    {
      hide Live, Bits;
    }

    /** A piece that is not the last one ends with its chunk, at a whole byte. */
    lemma WholeBytes(left: nat, size: nat, inChunk: nat, n: nat, bytes: nat)
      requires inChunk < size && size % 64 == 0 && inChunk % 8 == 0 && n == Least(left, size - inChunk) && bytes == (n + 7) / 8
      ensures 8 * bytes < n + 8 && n <= 8 * bytes && 8 * bytes < left + 8
      ensures n < left ==> n == 8 * bytes && (inChunk + n) % 8 == 0
    {
      InBytes(size / 64, inChunk / 8, n, bytes);
    }

    lemma InBytes(k: nat, i: nat, n: nat, bytes: nat)
      requires bytes == (n + 7) / 8
      ensures n <= 8 * bytes < n + 8
      ensures n == 64 * k - 8 * i ==> bytes == 8 * k - i && (8 * i + n) % 8 == 0
    {}

    lemma WordBit(n: nat, word: nat, bit: nat, size: nat)
      requires n == 8 * word + bit && bit < 8 && n < size && size % 64 == 0
      ensures n / 8 == word && n % 8 == bit && word < size / 8 && 8 * (size / 8) == size
    {}

    /** One bit, put into the chunk. */
    method PutIn(word: nat, bit: nat, v: bool)
      requires Valid() && chunk != null && numInChunk < chunkSize && numInChunk == 8 * word + bit && bit < 8
      modifies this`numInChunk, this`numElements, this`appended, chunk
      ensures Valid() && appended == old(appended) + [v] && numInChunk == old(numInChunk) + 1
    {
      hide Bits, Live, Start, Put;
      ghost var before := chunk[..];
      WordBit(numInChunk, word, bit, chunkSize);
      chunk[word] := Put(chunk[word], bit, v);
      assert chunk[..] == before[word := Put(before[word], bit, v)];
      BitAppended(appended, chunkNum, chunkSize, numInChunk, before, v, chunk[..]);
      numInChunk := numInChunk + 1;
      numElements := numElements + 1;
      appended := appended + [v];
    }

    /** The other case: bit after bit. */
    method AddBits(addr: seq<Byte>, len: nat)
      requires Valid() && chunk != null && numInChunk % 8 != 0 && len <= 8 * |addr|
      modifies this`file, this`numInChunk, this`chunkNum, this`numElements, this`appended, chunk
      ensures Valid() && appended == old(appended) + Bits(addr)[..len]
    {
      hide Valid, BitOf, Bits;
      Room();
      var word: nat, bit: nat := 0, 0;
      var chunkWord: nat, chunkBit: nat := numInChunk / 8, numInChunk % 8;
      var i := 0;
      assert appended + Bits(addr)[..0] == appended;
      while i < len
        invariant Valid() && 0 <= i <= len && bit < 8 && i == 8 * word + bit
        invariant appended == old(appended) + Bits(addr)[..i]
        invariant chunkBit < 8 && 8 * chunkWord + chunkBit == if numInChunk == chunkSize then 0 else numInChunk
      {
        FlushIfFull();
        Room();
        PutIn(chunkWord, chunkBit, BitOf(addr[word], bit));
        NextBit(addr, word, bit);
        bit, chunkBit := bit + 1, chunkBit + 1;
        if bit == 8 {
          word, bit := word + 1, 0;
        }
        if chunkBit == 8 {
          chunkWord, chunkBit := chunkWord + 1, 0;
          if chunkWord == chunkSize / 8 {
            chunkWord := 0;
          }
        }
        i := i + 1;
      }
    }

    /** vec_add_B1: the same bits are appended in both cases. */
    method Add(addr: seq<Byte>, len: nat)
      requires Valid() && len <= 8 * |addr|
      modifies this, chunk
      ensures Valid() && appended == old(appended) + Bits(addr)[..len]
      ensures chunk == old(chunk) || fresh(chunk)
    {
      if chunk == null {
        chunk := new Byte[chunkSize / 8](_ => 0);
      }
      if numInChunk % 8 == 0 {
        AddBytes(addr, len);
      } else {
        AddBits(addr, len);
      }
    }
  }

  lemma SomeBits(addr: seq<Byte>, at: nat, bytes: nat, n: nat)
    requires at + bytes <= |addr| && n <= 8 * bytes
    ensures Bits(addr)[..8 * at] + Bits(addr[at..at + bytes])[..n] == Bits(addr)[..8 * at + n]
  {
    hide BitOf;
    var joined := Bits(addr)[..8 * at] + Bits(addr[at..at + bytes])[..n];
    forall i | 0 <= i < 8 * at + n
      ensures joined[i] == Bits(addr)[i]
    {
      if i >= 8 * at {
        assert i / 8 == at + (i - 8 * at) / 8 && i % 8 == (i - 8 * at) % 8;
      }
    }
  }

  lemma NextBit(addr: seq<Byte>, word: nat, bit: nat)
    requires word < |addr| && bit < 8
    ensures Bits(addr)[..8 * word + bit + 1] == Bits(addr)[..8 * word + bit] + [BitOf(addr[word], bit)]
  {
    hide BitOf;
    assert Bits(addr)[8 * word + bit] == BitOf(addr[(8 * word + bit) / 8], (8 * word + bit) % 8);
  }

  lemma JoinedBits(a: seq<Byte>, b: seq<Byte>)
    ensures Bits(a + b) == Bits(a) + Bits(b)
  {
    hide BitOf;
  }
}
