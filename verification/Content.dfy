/** The text of a note: rstrins of arena.c and the slices of fuse_read and fuse_write. */
module Content {
  import opened Wrappers
  import Ical

  /** A C string ends before its first NUL. */
  function CString(s: string): (r: string)
    ensures '\0' !in s ==> r == s
    ensures '\0' !in r && r <= s && (|r| < |s| ==> s[|r|] == '\0')
  {
    if s == [] || s[0] == '\0' then [] else [s[0]] + CString(s[1..])
  }

  function Min(a: nat, b: nat): nat {
    if a <= b then a else b
  }

  function Spliced(str: string, offset: nat, buf: string): string {
    str[..Min(offset, |str|)] + buf
  }

  /** rstrins writes a prefix of the old text and then the buffer to a memory stream. */
  method Rstrins(str: string, offset: nat, buf: string) returns (result: string)
    ensures result == Spliced(str, offset, buf)
  {
    var previousNewLen := if offset <= |str| then offset else |str|;
    result := "";
    result := result + str[..previousNewLen];
    result := result + buf;
  }

  function Text(c: Ical.Component): string {
    if c.description.Some? then c.description.value else ""
  }

  /** What the file of a component holds after fuse_write. */
  function WrittenText(c: Ical.Component, buf: string, offset: nat): Ical.Component {
    Ical.Written(c.(description := Some(CString(Spliced(Text(c), offset, buf)))))
  }

  /** The bytes fuse_read copies. */
  function Slice(text: string, size: nat, offset: nat): string {
    if offset >= |text| then "" else text[offset..offset + Min(size, |text| - offset)]
  }

  // ----- chunks -----

  ghost function Concat(chunks: seq<string>): string {
    if chunks == [] then [] else Concat(chunks[..|chunks| - 1]) + chunks[|chunks| - 1]
  }

  /** Writes one after the other, each where the one before ended. */
  ghost function WriteChunks(c: Ical.Component, chunks: seq<string>): Ical.Component {
    if chunks == [] then c
    else
      var init := chunks[..|chunks| - 1];
      WrittenText(WriteChunks(c, init), chunks[|chunks| - 1], |Concat(init)|)
  }

  /** One write cuts the text at its offset and appends the buffer, up to a first NUL. */
  lemma OneWrite(c: Ical.Component, buf: string, offset: nat)
    requires '\0' !in Text(c) && '\0' !in buf
    ensures Text(WrittenText(c, buf, offset)) == Text(c)[..Min(offset, |Text(c)|)] + buf
  {
  }

  /** Writing a text in chunks leaves exactly that text, whatever was there before. */
  lemma {:induction false} ChunkedWrite(c: Ical.Component, chunks: seq<string>)
    requires chunks != [] && forall i :: 0 <= i < |chunks| ==> '\0' !in chunks[i]
    ensures Text(WriteChunks(c, chunks)) == Concat(chunks) && '\0' !in Concat(chunks)
  {
    var init, last := chunks[..|chunks| - 1], chunks[|chunks| - 1];
    if init == [] {
      assert Text(c)[..0] == [];
    } else {
      ChunkedWrite(c, init);
      OneWrite(WriteChunks(c, init), last, |Concat(init)|);
      assert Concat(init)[..|Concat(init)|] == Concat(init);
    }
  }

  ghost function Sum(sizes: seq<nat>): nat {
    if sizes == [] then 0 else Sum(sizes[..|sizes| - 1]) + sizes[|sizes| - 1]
  }

  /** Reads one after the other, each where the one before was asked to end. */
  ghost function ReadChunks(text: string, sizes: seq<nat>): string {
    if sizes == [] then []
    else
      var init := sizes[..|sizes| - 1];
      ReadChunks(text, init) + Slice(text, sizes[|sizes| - 1], Sum(init))
  }

  /** Consecutive reads give back the text up to the end of the last read. */
  lemma {:induction false} ChunkedRead(text: string, sizes: seq<nat>)
    ensures ReadChunks(text, sizes) == text[..Min(Sum(sizes), |text|)]
    ensures Sum(sizes) >= |text| ==> ReadChunks(text, sizes) == text
  {
    if sizes == [] {
      assert text[..0] == "";
    } else {
      var init, last := sizes[..|sizes| - 1], sizes[|sizes| - 1];
      ChunkedRead(text, init);
      SliceExtends(text, last, Sum(init));
    }
    assert text[..|text|] == text;
  }

  lemma SliceExtends(text: string, size: nat, offset: nat)
    ensures text[..Min(offset, |text|)] + Slice(text, size, offset) == text[..Min(offset + size, |text|)]
  {
    if offset < |text| {
      var end := offset + Min(size, |text| - offset);
      assert text[..offset] + text[offset..end] == text[..end];
    }
  }

  /** What was written in chunks is read back in chunks. */
  lemma WriteThenRead(c: Ical.Component, chunks: seq<string>, sizes: seq<nat>)
    requires chunks != [] && forall i :: 0 <= i < |chunks| ==> '\0' !in chunks[i]
    requires Sum(sizes) >= |Concat(chunks)|
    ensures ReadChunks(Text(WriteChunks(c, chunks)), sizes) == Concat(chunks)
  {
    ChunkedWrite(c, chunks);
    ChunkedRead(Concat(chunks), sizes);
  }
}
