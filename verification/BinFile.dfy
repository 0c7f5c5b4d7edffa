/** A Python binary file opened for update: a growable byte buffer with a position. */
module BinFile {

  function Fill(b: bv8, n: nat): (r: seq<bv8>)
    ensures |r| == n && forall i :: 0 <= i < n ==> r[i] == b
  {
    seq(n, i => b)
  }

  /** Overwrites or extends; a gap before the position reads as zeros, and writing nothing changes nothing. */
  function WriteAt(f: seq<bv8>, pos: nat, data: seq<bv8>): (r: seq<bv8>)
    ensures |r| == if data == [] || pos + |data| < |f| then |f| else pos + |data|
    ensures forall i :: 0 <= i < |r| ==>
              r[i] == if pos <= i < pos + |data| then data[i - pos] else if i < |f| then f[i] else 0
  {
    if data == [] then f
    else
      (if pos <= |f| then f[..pos] else f + Fill(0, pos - |f|)) + data
      + (if pos + |data| < |f| then f[pos + |data|..] else [])
  }

  lemma Appending(f: seq<bv8>, data: seq<bv8>)
    ensures WriteAt(f, |f|, data) == f + data
  {
  }

  class File {
    var content: seq<bv8>
    var pos: nat

    constructor (bytes: seq<bv8>)
      ensures content == bytes && pos == 0
    {
      content, pos := bytes, 0;
    }

    method Seek(to: nat)
      modifies this
      ensures pos == to && content == old(content)
    {
      pos := to;
    }

    method Write(data: seq<bv8>)
      modifies this
      ensures content == WriteAt(old(content), old(pos), data) && pos == old(pos) + |data|
      ensures old(pos) == |old(content)| ==> content == old(content) + data
    {
      Appending(content, data);
      content := WriteAt(content, pos, data);
      pos := pos + |data|;
    }

    /** Reads up to `n` bytes, fewer at the end of the file. */
    method Read(n: nat) returns (data: seq<bv8>)
      modifies this
      ensures content == old(content)
      ensures |data| <= n && (|data| < n ==> pos >= |content|)
      ensures data == Slice(content, old(pos), old(pos) + n) && pos == old(pos) + |data|
    {
      data := Slice(content, pos, pos + n);
      pos := pos + |data|;
    }

    method ReadAll() returns (data: seq<bv8>)
      modifies this
      ensures content == old(content)
      ensures data == Slice(content, old(pos), |content|) && pos == old(pos) + |data|
    {
      data := Slice(content, pos, |content|);
      pos := pos + |data|;
    }
  }

  /** Python's f[from:to]: the bytes of the range that the file has. */
  function Slice(f: seq<bv8>, from: nat, to: nat): (r: seq<bv8>)
    ensures |r| == if from >= |f| || from >= to then 0 else (if to < |f| then to else |f|) - from
    ensures forall i :: 0 <= i < |r| ==> r[i] == f[from + i]
  {
    if from >= |f| || from >= to then [] else if to > |f| then f[from..] else f[from..to]
  }
}
