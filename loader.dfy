/**
 * The object-file format `read_image_file` reads, and what loading an image does to memory.
 * An image is a big-endian origin word followed by big-endian payload words; on a little-endian
 * host `fread` stores each word byte-swapped, and the loader swaps it back in place.
 */
module Loader {
  import opened Bits
  import opened Isa

  datatype Option<T> = None | Some(value: T)

  /** The smaller of two counts. */
  function Min(a: nat, b: nat): (m: nat)
    ensures m <= a && m <= b && (m == a || m == b)
  {
    if a <= b then a else b
  }

  /** The uint16_t `fread` stores from two file bytes on a little-endian host. */
  function RawWord(first: Byte, second: Byte): (w: Word)
    ensures Lo(w) == first && Hi(w) == second
  {
    Join(second, first)
  }

  /** `swap16` of the first word read: the origin, which the file stores big-endian. */
  function Origin(bytes: seq<Byte>): (o: Word)
    requires |bytes| >= 2
    ensures o == Join(bytes[0], bytes[1])
  {
    Swap16(RawWord(bytes[0], bytes[1]))
  }

  /**
   * `max_read = UINT16_MAX - origin`: the words from the origin up to 0xFFFE. The last cell of
   * memory is never loaded.
   */
  function MaxRead(origin: Word): (n: nat)
    ensures Addr(origin) + n == 0xFFFF
  {
    0xFFFF - Addr(origin)
  }

  /**
   * The count the second `fread` returns: the whole words after the origin, capped at max_read.
   * A file shorter than one word loads nothing.
   */
  function WordCount(bytes: seq<Byte>): (n: nat)
    ensures |bytes| < 2 ==> n == 0
    ensures |bytes| >= 2 ==> n <= MaxRead(Origin(bytes)) && 2 + 2 * n <= |bytes|
    ensures |bytes| >= 2 ==> n == MaxRead(Origin(bytes)) || |bytes| < 2 + 2 * (n + 1)
  {
    if |bytes| < 2 then 0 else Min(MaxRead(Origin(bytes)), (|bytes| - 2) / 2)
  }

  /** Whether cell `a` receives a payload word. */
  predicate InImage(bytes: seq<Byte>, a: int)
  {
    |bytes| >= 2 && Addr(Origin(bytes)) <= a < Addr(Origin(bytes)) + WordCount(bytes)
  }

  /** Payload word `i` as `fread` stores it, before the swap. */
  function RawPayload(bytes: seq<Byte>, i: nat): Word
    requires 2 + 2 * i + 1 < |bytes|
  {
    RawWord(bytes[2 + 2 * i], bytes[2 + 2 * i + 1])
  }

  /** Memory after the second `fread`: the payload words, still byte-swapped, from the origin. */
  function Fread(mem: seq<Word>, bytes: seq<Byte>): (m: seq<Word>)
    requires |mem| == MEMORY_MAX
    ensures |m| == MEMORY_MAX
  {
    seq(MEMORY_MAX, a requires 0 <= a < MEMORY_MAX =>
      if InImage(bytes, a) then RawPayload(bytes, a - Addr(Origin(bytes))) else mem[a])
  }

  /** Memory after `read_image_file`: every word `fread` stored, swapped back. */
  function LoadImage(mem: seq<Word>, bytes: seq<Byte>): (m: seq<Word>)
    requires |mem| == MEMORY_MAX
    ensures |m| == MEMORY_MAX
    ensures forall a :: 0 <= a < MEMORY_MAX && !InImage(bytes, a) ==> m[a] == mem[a]
  {
    seq(MEMORY_MAX, a requires 0 <= a < MEMORY_MAX =>
      if InImage(bytes, a) then Swap16(RawPayload(bytes, a - Addr(Origin(bytes)))) else mem[a])
  }

  /** Payload word `i` lands at `origin + i` in the file's big-endian order. */
  lemma LoadedWords(mem: seq<Word>, bytes: seq<Byte>)
    requires |mem| == MEMORY_MAX && |bytes| >= 2
    ensures forall i :: 0 <= i < WordCount(bytes) ==>
      LoadImage(mem, bytes)[Addr(Origin(bytes)) + i] == Join(bytes[2 + 2 * i], bytes[2 + 2 * i + 1])
  {
    var m := LoadImage(mem, bytes);
    forall i | 0 <= i < WordCount(bytes)
      ensures m[Addr(Origin(bytes)) + i] == Join(bytes[2 + 2 * i], bytes[2 + 2 * i + 1])
    {
      var w := Swap16(RawPayload(bytes, i));
      assert m[Addr(Origin(bytes)) + i] == w;
      JoinSplit(w);
    }
  }

  /** Memory in which exactly the cells of the image hold the swapped `fread` words is the loaded memory. */
  lemma LoadIsSwappedFread(mem: seq<Word>, bytes: seq<Byte>, m: seq<Word>)
    requires |mem| == |m| == MEMORY_MAX
    requires forall a :: 0 <= a < MEMORY_MAX ==>
      m[a] == if InImage(bytes, a) then Swap16(Fread(mem, bytes)[a]) else Fread(mem, bytes)[a]
    ensures m == LoadImage(mem, bytes)
  {
    var f := Fread(mem, bytes);
    var l := LoadImage(mem, bytes);
    forall a | 0 <= a < MEMORY_MAX
      ensures m[a] == l[a]
    {
      if !InImage(bytes, a) {
        assert f[a] == mem[a];
      }
    }
  }

  /** The bytes of `ws` with each word big-endian, as an image file stores them. */
  function Serialize(ws: seq<Word>): seq<Byte>
  {
    if ws == [] then [] else [Hi(ws[0]), Lo(ws[0])] + Serialize(ws[1..])
  }

  /** Word `i` of `ws` occupies bytes `2i` (high) and `2i + 1` (low) of its serialisation. */
  lemma {:induction false} SerializeBytes(ws: seq<Word>)
    ensures |Serialize(ws)| == 2 * |ws|
    ensures forall i :: 0 <= i < |ws| ==>
      Serialize(ws)[2 * i] == Hi(ws[i]) && Serialize(ws)[2 * i + 1] == Lo(ws[i])
  {
    if ws != [] {
      var rest := Serialize(ws[1..]);
      SerializeBytes(ws[1..]);
      assert Serialize(ws) == [Hi(ws[0]), Lo(ws[0])] + rest;
      forall i | 0 < i < |ws|
        ensures Serialize(ws)[2 * i] == Hi(ws[i]) && Serialize(ws)[2 * i + 1] == Lo(ws[i])
      {
        var j := i - 1;
        assert ws[1..][j] == ws[i];
        assert Serialize(ws)[2 * i] == rest[2 * j];
        assert Serialize(ws)[2 * i + 1] == rest[2 * j + 1];
      }
    }
  }

  /** The image file with origin `origin` and payload `ws`. */
  function Image(origin: Word, ws: seq<Word>): seq<Byte>
  {
    Serialize([origin] + ws)
  }

  /** The image of `ws` at `origin` holds the origin and then each payload word big-endian. */
  lemma ImageLayout(origin: Word, ws: seq<Word>)
    ensures var bytes := Image(origin, ws);
      |bytes| == 2 + 2 * |ws| && bytes[0] == Hi(origin) && bytes[1] == Lo(origin)
      && Origin(bytes) == origin
      && forall i :: 0 <= i < |ws| ==> bytes[2 + 2 * i] == Hi(ws[i]) && bytes[2 + 2 * i + 1] == Lo(ws[i])
  {
    var all := [origin] + ws;
    SerializeBytes(all);
    var bytes := Serialize(all);
    assert bytes[0] == Hi(origin) && bytes[1] == Lo(origin);
    JoinSplit(origin);
    forall i | 0 <= i < |ws|
      ensures bytes[2 + 2 * i] == Hi(ws[i]) && bytes[2 + 2 * i + 1] == Lo(ws[i])
    {
      assert all[i + 1] == ws[i];
      assert 2 + 2 * i == 2 * (i + 1);
    }
  }

  /**
   * Loading the image of `ws` at `origin`, when it fits below 0xFFFF, puts `ws[i]` at
   * `origin + i` in native order and leaves every other cell as it was.
   */
  lemma LoadOfImage(mem: seq<Word>, origin: Word, ws: seq<Word>)
    requires |mem| == MEMORY_MAX && |ws| <= MaxRead(origin)
    ensures var bytes := Image(origin, ws);
      |bytes| >= 2 && Origin(bytes) == origin && WordCount(bytes) == |ws|
    ensures var m := LoadImage(mem, Image(origin, ws));
      (forall i :: 0 <= i < |ws| ==> m[Addr(origin) + i] == ws[i])
      && (forall a :: 0 <= a < MEMORY_MAX && !(Addr(origin) <= a < Addr(origin) + |ws|) ==>
            m[a] == mem[a])
  {
    var bytes := Image(origin, ws);
    ImageLayout(origin, ws);
    assert WordCount(bytes) == |ws|;
    var m := LoadImage(mem, bytes);
    LoadedWords(mem, bytes);
    forall i | 0 <= i < |ws|
      ensures m[Addr(origin) + i] == ws[i]
    {
      assert m[Addr(origin) + i] == Join(Hi(ws[i]), Lo(ws[i]));
      JoinSplit(ws[i]);
    }
  }

  /** Two byte sequences that agree on the origin bytes and on both bytes of every payload word are equal. */
  lemma PairwiseEqual(x: seq<Byte>, y: seq<Byte>, n: nat)
    requires |x| == |y| == 2 + 2 * n && x[0] == y[0] && x[1] == y[1]
    requires forall i :: 0 <= i < n ==> x[2 + 2 * i] == y[2 + 2 * i] && x[2 + 2 * i + 1] == y[2 + 2 * i + 1]
    ensures x == y
  {
    forall j | 2 <= j < 2 + 2 * n
      ensures x[j] == y[j]
    {
      var i := (j - 2) / 2;
      assert j == 2 + 2 * i || j == 2 + 2 * i + 1;
    }
  }

  /** The bytes of every loaded word are the file's bytes of that payload word. */
  lemma LoadedWordBytes(mem: seq<Word>, bytes: seq<Byte>)
    requires |mem| == MEMORY_MAX && |bytes| >= 2
    ensures var m := LoadImage(mem, bytes); var o := Addr(Origin(bytes));
      forall k :: 0 <= k < WordCount(bytes) ==>
        Hi(m[o + k]) == bytes[2 + 2 * k] && Lo(m[o + k]) == bytes[2 + 2 * k + 1]
  {
    LoadedWords(mem, bytes);
  }

  /** The words `m[o..o + n]` have the payload bytes of `bytes` when the words from `o` do. */
  lemma SliceBytes(m: seq<Word>, o: nat, n: nat, bytes: seq<Byte>)
    requires o + n <= |m| && 2 + 2 * n <= |bytes|
    requires forall k :: 0 <= k < n ==> Hi(m[o + k]) == bytes[2 + 2 * k] && Lo(m[o + k]) == bytes[2 + 2 * k + 1]
    ensures forall k :: 0 <= k < n ==>
      Hi(m[o..o + n][k]) == bytes[2 + 2 * k] && Lo(m[o..o + n][k]) == bytes[2 + 2 * k + 1]
  {
    forall k | 0 <= k < n
      ensures Hi(m[o..o + n][k]) == bytes[2 + 2 * k] && Lo(m[o..o + n][k]) == bytes[2 + 2 * k + 1]
    {
      assert m[o..o + n][k] == m[o + k];
    }
  }

  /** Words whose bytes are the payload bytes of a file serialise back to that file. */
  lemma SerializeMatching(bytes: seq<Byte>, origin: Word, ws: seq<Word>)
    requires 2 + 2 * |ws| <= |bytes|
    requires Hi(origin) == bytes[0] && Lo(origin) == bytes[1]
    requires forall k :: 0 <= k < |ws| ==>
      Hi(ws[k]) == bytes[2 + 2 * k] && Lo(ws[k]) == bytes[2 + 2 * k + 1]
    ensures Image(origin, ws) == bytes[..2 + 2 * |ws|]
  {
    var out := Image(origin, ws);
    var file := bytes[..2 + 2 * |ws|];
    ImageLayout(origin, ws);
    assert out[0] == file[0] && out[1] == file[1];
    forall i | 0 <= i < |ws|
      ensures out[2 + 2 * i] == file[2 + 2 * i] && out[2 + 2 * i + 1] == file[2 + 2 * i + 1]
    {
      assert out[2 + 2 * i] == Hi(ws[i]);
      assert Hi(ws[i]) == bytes[2 + 2 * i];
      assert file[2 + 2 * i] == bytes[2 + 2 * i];
    }
    PairwiseEqual(out, file, |ws|);
  }

  /**
   * The inverse direction: the words `read_image_file` placed, serialised again behind the
   * origin, give back the bytes of the file it consumed.
   */
  lemma LoadThenSerialize(mem: seq<Word>, bytes: seq<Byte>)
    requires |mem| == MEMORY_MAX && |bytes| >= 2
    ensures var o := Addr(Origin(bytes)); var n := WordCount(bytes);
      Image(Origin(bytes), LoadImage(mem, bytes)[o..o + n]) == bytes[..2 + 2 * n]
  {
    var o := Addr(Origin(bytes));
    var n := WordCount(bytes);
    var m := LoadImage(mem, bytes);
    LoadedWordBytes(mem, bytes);
    SliceBytes(m, o, n, bytes);
    SerializeMatching(bytes, Origin(bytes), m[o..o + n]);
  }

  /** Swapping a loaded word again gives the word `fread` stored from the file. */
  lemma ReswapGivesRaw(mem: seq<Word>, bytes: seq<Byte>, a: int)
    requires |mem| == MEMORY_MAX && 0 <= a < MEMORY_MAX && InImage(bytes, a)
    ensures Swap16(LoadImage(mem, bytes)[a]) == Fread(mem, bytes)[a]
  {
    Swap16Involutive(Fread(mem, bytes)[a]);
  }
}
