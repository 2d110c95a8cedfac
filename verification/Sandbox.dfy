/** vgseer's reading of the sandbox shell: it cuts vgexpand's output out of whatever else
    the shell writes, however the bytes are split over reads. */
module Sandbox {
  import opened Bytes
  import opened Listings

  /** The reads the sandbox shell's output arrives in; after them it has exited. */
  class Sandbox {
    var chunks: seq<string>
    var vgexpandCalled: bool

    constructor (chunks: seq<string>)
      ensures this.chunks == chunks && !vgexpandCalled
    {
      this.chunks, vgexpandCalled := chunks, false;
    }

    method Read() returns (data: Option<string>)
      modifies this`chunks
      ensures old(chunks) == [] ==> data == None && chunks == []
      ensures old(chunks) != [] ==> data == Some(old(chunks)[0]) && chunks == old(chunks)[1..]
    {
      if chunks == [] {
        return None;
      }
      data, chunks := Some(chunks[0]), chunks[1..];
    }

    /** One call for pending output.  While an expansion is awaited it reads on until the
        output is complete, and drops what follows it in the last read. */
    method ProcessSandbox() returns (expanded: Option<string>)
      modifies this
      ensures old(chunks) == [] || !old(vgexpandCalled) ==> expanded == None && vgexpandCalled == old(vgexpandCalled)
      ensures old(chunks) != [] && old(vgexpandCalled) ==>
                && expanded == Expansion(old(chunks)) && vgexpandCalled == expanded.None?
                && (expanded.None? ==> chunks == [])
    {
      var buf := Read();
      if buf == None || !vgexpandCalled {
        return None;
      }
      assert old(chunks) == [buf.value] + chunks;
      var piece := FindStart(buf.value);
      if piece == None {
        return None;
      }
      expanded := CopyToEnd(piece.value);
      vgexpandCalled := expanded.None?;
    }

    /** Read on until the opening mark turns up; the answer is what its read holds behind it. */
    method FindStart(first: string) returns (piece: Option<string>)
      modifies this`chunks
      ensures piece == None ==> Expansion([first] + old(chunks)) == None && chunks == []
      ensures piece.Some? ==> Expansion([first] + old(chunks)) == UpToEnd([piece.value] + chunks)
    {
      var buf := first;
      var start := FirstOf(CStr(buf), STX);
      while start < 0
        invariant start == FirstOf(CStr(buf), STX)
        invariant Expansion([first] + old(chunks)) == Expansion([buf] + chunks)
        decreases |chunks|
      {
        ghost var rest := chunks;
        assert ([buf] + rest)[1..] == rest;
        var more := Read();
        if more == None {
          return None;
        }
        buf := more.value;
        assert rest == [buf] + chunks;
        start := FirstOf(CStr(buf), STX);
      }
      assert ([buf] + chunks)[1..] == chunks;
      piece := Some(buf[start + 1..]);
    }

    /** Collect what is read up to the closing mark. */
    method CopyToEnd(first: string) returns (expanded: Option<string>)
      modifies this`chunks
      ensures expanded == UpToEnd([first] + old(chunks)) && (expanded.None? ==> chunks == [])
    {
      var text, piece := "", first;
      var end := FirstOf(CStr(piece), ETX);
      PrefixedNothing(UpToEnd([first] + chunks));
      while end < 0
        invariant end == FirstOf(CStr(piece), ETX)
        invariant UpToEnd([first] + old(chunks)) == Prefixed(text, UpToEnd([piece] + chunks))
        decreases |chunks|
      {
        ghost var rest := chunks;
        assert ([piece] + rest)[1..] == rest;
        PrefixedBoth(text, piece, UpToEnd(rest));
        text := text + piece;
        var more := Read();
        if more == None {
          return None;
        }
        assert rest == [more.value] + chunks;
        piece := more.value;
        end := FirstOf(CStr(piece), ETX);
      }
      expanded := Some(text + piece[..end]);
    }
  }

  lemma PrefixedNothing(b: Option<string>)
    ensures Prefixed("", b) == b
  {
    if b.Some? {
      assert "" + b.value == b.value;
    }
  }

  lemma PrefixedBoth(a: string, b: string, c: Option<string>)
    ensures Prefixed(a, Prefixed(b, c)) == Prefixed(a + b, c)
  {
    if c.Some? {
      assert a + (b + c.value) == (a + b) + c.value;
    }
  }

  function Prefixed(a: string, b: Option<string>): Option<string> {
    if b.None? then None else Some(a + b.value)
  }

  /** What is cut out of a list of reads. */
  function Expansion(chunks: seq<string>): Option<string> {
    if chunks == [] then None
    else
      var start := FirstOf(CStr(chunks[0]), STX);
      if start < 0 then Expansion(chunks[1..]) else UpToEnd([chunks[0][start + 1..]] + chunks[1..])
  }

  function UpToEnd(chunks: seq<string>): Option<string> {
    if chunks == [] then None
    else
      var end := FirstOf(CStr(chunks[0]), ETX);
      if end < 0 then Prefixed(chunks[0], UpToEnd(chunks[1..])) else Some(chunks[0][..end])
  }

  function Flat(chunks: seq<string>): string {
    if chunks == [] then "" else chunks[0] + Flat(chunks[1..])
  }

  /** However a stream is split into reads, the text between the first opening mark and the
      first closing mark after it is what is cut out -- of a stream with no NUL before its end. */
  lemma {:induction false} AnyChunking(chunks: seq<string>, junk: string, text: string, more: string)
    requires Flat(chunks) == junk + [STX] + text + [ETX] + more
    requires NUL !in junk && STX !in junk && NUL !in text && ETX !in text
    ensures Expansion(chunks) == Some(text)
  {
    var r, rest := chunks[0], Flat(chunks[1..]);
    var tail := text + [ETX] + more;
    assert r + rest == junk + [STX] + tail;
    if |r| <= |junk| {
      assert r + rest == junk + ([STX] + tail);
      SplitAppend(r, rest, junk, [STX] + tail);
      CStrId(r);
      assert rest == junk[|r|..] + [STX] + text + [ETX] + more;
      AnyChunking(chunks[1..], junk[|r|..], text, more);
    } else {
      LongHead(r, rest, junk, STX, tail);
      MarkFound(r, junk, STX);
      var pieces := [r[|junk| + 1..]] + chunks[1..];
      assert pieces[1..] == chunks[1..];
      EndFound(pieces, text, more);
    }
  }

  lemma LongHead(a: string, b: string, c: string, mark: char, d: string)
    requires a + b == c + [mark] + d && |a| > |c|
    ensures a[..|c|] == c && a[|c|] == mark && a[|c| + 1..] + b == d
  {
    var s := a + b;
    assert s[..|c|] == c && s[|c|] == mark && s[|c| + 1..] == d;
    assert s[..|c|] == a[..|c|] && s[|c|] == a[|c|] && s[|c| + 1..] == a[|c| + 1..] + b;
  }

  lemma SplitAppend(a: string, b: string, c: string, d: string)
    requires a + b == c + d && |a| <= |c|
    ensures a == c[..|a|] && b == c[|a|..] + d
  {
    assert (a + b)[..|a|] == a && (c + d)[..|a|] == c[..|a|];
    assert (a + b)[|a|..] == b && (c + d)[|a|..] == c[|a|..] + d;
  }

  /** A search that may stop at a NUL still finds a mark with none before it. */
  lemma MarkFound(s: string, before: string, mark: char)
    requires |before| < |s| && s[..|before|] == before && s[|before|] == mark
    requires NUL !in before && mark !in before && mark != NUL
    ensures FirstOf(CStr(s), mark) == |before|
  {
    assert s[..|before| + 1] == before + [mark];
    CStrKeeps(s, |before|);
    var t := CStr(s);
    assert t[..|before|] == t[..|before| + 1][..|before|] && t[|before|] == t[..|before| + 1][|before|];
    FirstOfAt(t, mark, |before|);
  }

  lemma {:induction false} EndFound(chunks: seq<string>, text: string, more: string)
    requires Flat(chunks) == text + [ETX] + more && NUL !in text && ETX !in text
    ensures UpToEnd(chunks) == Some(text)
  {
    var r, rest := chunks[0], Flat(chunks[1..]);
    if |r| <= |text| {
      assert r + rest == text + ([ETX] + more);
      SplitAppend(r, rest, text, [ETX] + more);
      CStrId(r);
      assert rest == text[|r|..] + [ETX] + more;
      EndFound(chunks[1..], text[|r|..], more);
      assert text == r + text[|r|..];
    } else {
      LongHead(r, rest, text, ETX, more);
      MarkFound(r, text, ETX);
    }
  }

  /** vgexpand's output comes through the sandbox shell intact, whatever the shell wrote
      before it and however the pipe splits it. */
  lemma OutputComesThrough(chunks: seq<string>, junk: string, ds: seq<Dir>, more: string)
    requires Flat(chunks) == junk + Output(ds) + more && AllPlain(ds)
    requires NUL !in junk && STX !in junk
    ensures Expansion(chunks) == Some(Text(ds))
  {
    TextFree(ds);
    assert junk + Output(ds) + more == junk + [STX] + Text(ds) + [ETX] + more;
    AnyChunking(chunks, junk, Text(ds), more);
  }
}
