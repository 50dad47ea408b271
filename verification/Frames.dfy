/** The framing of a dump file (write_string in tools/ups_export.cc; run and
    read_size in tools/ups_import.cc): each message follows its length, which is
    a word of four bytes. */
module Frames {
  import opened TableBytes

  const WORD: nat := 0x1_0000_0000

  function Frame(s: Bytes): Bytes { ToBytes(|s|, 4) + s }

  /** Four bytes hold the length, low byte first, and the message follows. */
  lemma FrameLayout(s: Bytes, i: nat)
    requires i < 4
    ensures |Frame(s)| == 4 + |s| && Frame(s)[i] == Digit(|s|, i) && Frame(s)[4..] == s
  {
    ByteAt(|s|, 4, i);
  }

  function WriteAll(fs: seq<Bytes>): Bytes {
    if fs == [] then [] else Frame(fs[0]) + WriteAll(fs[1..])
  }

  lemma {:induction false} WriteAllAppend(a: seq<Bytes>, b: seq<Bytes>)
    ensures WriteAll(a + b) == WriteAll(a) + WriteAll(b)
  {
    if a == [] {
      assert a + b == b;
    } else {
      WriteAllAppend(a[1..], b);
      assert (a + b)[0] == a[0] && (a + b)[1..] == a[1..] + b;
    }
  }

  datatype Parsed = Parsed(frames: seq<Bytes>, ok: bool)

  /** What the importer makes of a stream: the messages it processes, and whether
      it ends without an error. A length of zero ends it, too. */
  function Parse(b: Bytes): Parsed
    decreases |b|
  {
    if b == [] then Parsed([], true)
    else if |b| < 4 then Parsed([], false)
    else
      var size := FromBytes(b[..4]);
      if size == 0 then Parsed([], true)
      else if |b| < 4 + size then Parsed([], false)
      else
        var rest := Parse(b[4 + size..]);
        Parsed([b[4..4 + size]] + rest.frames, rest.ok)
  }

  predicate Fits(fs: seq<Bytes>) { forall i :: 0 <= i < |fs| ==> |fs[i]| < WORD }

  lemma SizeRead(s: Bytes, tail: Bytes)
    requires |s| < WORD
    ensures var b := Frame(s) + tail;
            |b| == 4 + |s| + |tail| && FromBytes(b[..4]) == |s| && b[4..4 + |s|] == s && b[4 + |s|..] == tail
  {
    Powers();
    WordRoundTrip(|s|, 4);
    assert (Frame(s) + tail)[..4] == ToBytes(|s|, 4);
  }

  lemma ParseFrame(s: Bytes, tail: Bytes)
    requires 0 < |s| < WORD
    ensures Parse(Frame(s) + tail) == Parsed([s] + Parse(tail).frames, Parse(tail).ok)
  {
    SizeRead(s, tail);
  }

  /** Messages up to the first empty one. */
  function UpToEmpty(fs: seq<Bytes>): (r: seq<Bytes>)
    ensures r == fs <==> forall i :: 0 <= i < |fs| ==> fs[i] != []
  {
    if fs == [] || fs[0] == [] then []
    else
      assert fs == [fs[0]] + fs[1..];
      [fs[0]] + UpToEmpty(fs[1..])
  }

  /** Reading a whole dump gives the messages that were written, if and only if
      none of them is empty: an empty one ends the import silently. */
  lemma {:induction false} ParseInvertsWrite(fs: seq<Bytes>)
    requires Fits(fs)
    ensures Parse(WriteAll(fs)) == Parsed(UpToEmpty(fs), true)
    ensures Parse(WriteAll(fs)) == Parsed(fs, true) <==> forall i :: 0 <= i < |fs| ==> fs[i] != []
  {
    if fs != [] {
      var tail := WriteAll(fs[1..]);
      if fs[0] == [] {
        SizeRead(fs[0], tail);
      } else {
        ParseInvertsWrite(fs[1..]);
        ParseFrame(fs[0], tail);
      }
    }
  }

  /** The number of messages that lie wholly within the first c bytes. */
  function Whole(fs: seq<Bytes>, c: nat): (k: nat)
    ensures k <= |fs|
  {
    if fs == [] || c < 4 + |fs[0]| then 0 else 1 + Whole(fs[1..], c - (4 + |fs[0]|))
  }

  lemma {:induction false} WholeIsGreatest(fs: seq<Bytes>, c: nat)
    ensures |WriteAll(fs[..Whole(fs, c)])| <= c
    ensures forall k :: Whole(fs, c) < k <= |fs| ==> |WriteAll(fs[..k])| > c
  {
    var w := Whole(fs, c);
    if fs == [] {
    } else if c < 4 + |fs[0]| {
      assert fs[..0] == [];
      forall k | w < k <= |fs| ensures |WriteAll(fs[..k])| > c {
        assert fs[..k][0] == fs[0];
      }
    } else {
      var d := c - (4 + |fs[0]|);
      WholeIsGreatest(fs[1..], d);
      forall k | 0 < k <= |fs| ensures |WriteAll(fs[..k])| == 4 + |fs[0]| + |WriteAll(fs[1..][..k - 1])| {
        assert fs[..k][1..] == fs[1..][..k - 1];
      }
    }
  }

  lemma PrefixWritten(fs: seq<Bytes>, w: nat)
    requires w < |fs|
    ensures fs[..w + 1] == [fs[0]] + fs[1..][..w]
    ensures |WriteAll(fs[..w + 1])| == 4 + |fs[0]| + |WriteAll(fs[1..][..w])|
  {
    assert fs[..w + 1][1..] == fs[1..][..w];
  }

  /** A cut inside of a message. */
  lemma CutInside(f: Bytes, tail: Bytes, c: nat)
    requires 0 < |f| < WORD && c < 4 + |f|
    ensures |Frame(f)| == 4 + |f| && Parse((Frame(f) + tail)[..c]) == Parsed([], c == 0)
  {
    var all := Frame(f) + tail;
    SizeRead(f, tail);
    if c >= 4 {
      assert all[..c][..4] == all[..4];
    }
  }

  /** A dump that is cut off after c bytes: the importer processes exactly the
      messages that are complete, and it notices the loss unless the cut falls
      between two messages. */
  lemma {:induction false} CutDump(fs: seq<Bytes>, c: nat)
    requires Fits(fs) && (forall i :: 0 <= i < |fs| ==> fs[i] != []) && c <= |WriteAll(fs)|
    ensures var p := Parse(WriteAll(fs)[..c]);
            && p.frames == fs[..Whole(fs, c)]
            && (p.ok <==> c == |WriteAll(fs[..Whole(fs, c)])|)
  {
    if fs == [] {
      assert WriteAll(fs)[..c] == [];
    } else {
      var f, tail := fs[0], WriteAll(fs[1..]);
      if c < 4 + |f| {
        CutInside(f, tail, c);
        assert fs[..0] == [] && WriteAll(fs[..0]) == [];
      } else {
        var d := c - (4 + |f|);
        assert (Frame(f) + tail)[..c] == Frame(f) + tail[..d];
        ParseFrame(f, tail[..d]);
        CutDump(fs[1..], d);
        PrefixWritten(fs, Whole(fs[1..], d));
      }
    }
  }

  /** What follows at a position of the file. */
  lemma ParseAt(file: Bytes, at: nat, size: nat)
    requires at + 4 <= |file| && size == FromBytes(file[at..at + 4])
    ensures Parse(file[at..]) ==
              if size == 0 then Parsed([], true)
              else if |file| - at - 4 < size then Parsed([], false)
              else
                var rest := Parse(file[at + 4 + size..]);
                Parsed([file[at + 4..at + 4 + size]] + rest.frames, rest.ok)
  {
    var b := file[at..];
    assert b[..4] == file[at..at + 4];
    if 0 < size <= |file| - at - 4 {
      assert b[4..4 + size] == file[at + 4..at + 4 + size] && b[4 + size..] == file[at + 4 + size..];
    }
  }

  /** run in tools/ups_import.cc as a loop over the file. */
  method Run(file: Bytes) returns (frames: seq<Bytes>, ok: bool)
    ensures Parsed(frames, ok) == Parse(file)
  {
    var at := 0;
    frames := [];
    assert file[0..] == file;
    while at < |file|
      invariant at <= |file|
      invariant Parse(file) == Parsed(frames + Parse(file[at..]).frames, Parse(file[at..]).ok)
      decreases |file| - at
    {
      if |file| - at < 4 {
        assert Parse(file[at..]) == Parsed([], false);
        return frames, false;
      }
      var size := FromBytes(file[at..at + 4]);
      ParseAt(file, at, size);
      if size == 0 {
        return frames, true;
      }
      if |file| - at - 4 < size {
        return frames, false;
      }
      ghost var more := Parse(file[at + 4 + size..]).frames;
      assert frames + ([file[at + 4..at + 4 + size]] + more) == frames + [file[at + 4..at + 4 + size]] + more;
      frames := frames + [file[at + 4..at + 4 + size]];
      at := at + 4 + size;
    }
    ok := true;
  }
}
