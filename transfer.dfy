/** The success path of one attempt: the file the response is written to,
    the chunked copy of the response body into it, and what the action
    publishes to later pipeline stages. */
module Transfer {
  import opened JavaLang

  newtype byte = x: int | 0 <= x < 256

  /** The size of the copy buffer, in bytes or in characters. */
  const BufferSize: nat := 4096

  // ---------------------------------------------------------------------
  // Streams and the destination file
  // ---------------------------------------------------------------------

  /** A stream read in chunks into a caller's buffer, as InputStream.read(byte[])
      and Reader.read(char[]) are: each read fills a prefix of the buffer with
      at least one element and returns its length, or returns -1 once the
      stream is exhausted. How much one read delivers is up to the stream. */
  class Source<T> {
    const data: seq<T>
    var pos: nat

    ghost predicate Valid()
      reads this
    {
      pos <= |data|
    }

    /** What is still to be read. */
    function Remaining(): seq<T>
      reads this
      requires Valid()
    {
      data[pos..]
    }

    constructor (content: seq<T>)
      ensures Valid() && Remaining() == content
    {
      data, pos := content, 0;
    }

    method Read(buf: array<T>) returns (n: int)
      requires Valid() && buf.Length > 0
      modifies this, buf
      ensures Valid()
      ensures old(Remaining()) == [] ==> n == -1 && Remaining() == []
      ensures old(Remaining()) != [] ==>
        1 <= n <= buf.Length && buf[..n] + Remaining() == old(Remaining())
    {
      if pos == |data| {
        return -1;
      }
      var available := |data| - pos;
      var max := if buf.Length < available then buf.Length else available;
      n :| 1 <= n <= max;
      forall k | 0 <= k < n {
        buf[k] := data[pos + k];
      }
      assert buf[..n] == data[pos..pos + n];
      pos := pos + n;
    }
  }

  /** The HDFS file at the configured path. */
  class HdfsFile {
    var contents: seq<byte>

    constructor (contents: seq<byte>)
      ensures this.contents == contents
    {
      this.contents := contents;
    }

    /** fs.create(file, true): the file is overwritten, so it starts empty. */
    method Create()
      modifies this
      ensures contents == []
    {
      contents := [];
    }

    /** write(b, off, len): appends `len` bytes of `b` from `off`. */
    method Write(b: seq<byte>, off: nat, len: nat)
      requires off + len <= |b|
      modifies this
      ensures contents == old(contents) + b[off..off + len]
    {
      contents := contents + b[off..off + len];
    }
  }

  /** Binary output: read chunks into a 4096-byte buffer and write exactly
      the bytes each read returned, until a read returns a negative count.
      The file ends up with the whole remaining stream appended. */
  method CopyBinary(input: Source<byte>, output: HdfsFile)
    requires input.Valid()
    modifies input, output
    ensures input.Valid() && input.Remaining() == []
    ensures output.contents == old(output.contents) + old(input.Remaining())
  {
    var bytesIn := new byte[BufferSize];
    while true
      invariant input.Valid()
      invariant output.contents + input.Remaining() == old(output.contents) + old(input.Remaining())
      decreases |input.Remaining()|
    {
      ghost var before := input.Remaining();
      var i := input.Read(bytesIn);
      if i < 0 {
        break;
      }
      output.Write(bytesIn[..], 0, i);
      assert bytesIn[..][0..i] == bytesIn[..i];
      assert before == bytesIn[..i] + input.Remaining();
    }
  }

  // ---------------------------------------------------------------------
  // Text output
  // ---------------------------------------------------------------------

  /** The platform's default charset, UTF-8, encoding one character. */
  function Utf8Char(ch: char): (r: seq<byte>)
    ensures 1 <= |r| <= 4
    ensures |r| == 1 <==> (ch as int) < 0x80
  {
    var v := ch as int;
    if v < 0x80 then [v as byte]
    else if v < 0x800 then [(0xC0 + v / 0x40) as byte, (0x80 + v % 0x40) as byte]
    else if v < 0x1_0000 then
      [(0xE0 + v / 0x1000) as byte, (0x80 + (v / 0x40) % 0x40) as byte, (0x80 + v % 0x40) as byte]
    else
      [(0xF0 + v / 0x4_0000) as byte, (0x80 + (v / 0x1000) % 0x40) as byte,
       (0x80 + (v / 0x40) % 0x40) as byte, (0x80 + v % 0x40) as byte]
  }

  /** String.getBytes() in the default charset. */
  function Utf8(s: seq<char>): seq<byte>
    decreases |s|
  {
    if s == [] then [] else Utf8Char(s[0]) + Utf8(s[1..])
  }

  /** Encoding a concatenation encodes the parts one after the other, so
      encoding chunk by chunk encodes the whole text. */
  lemma {:induction false} Utf8Append(a: seq<char>, b: seq<char>)
    ensures Utf8(a + b) == Utf8(a) + Utf8(b)
    decreases |a|
  {
    if a != [] {
      Utf8Append(a[1..], b);
      var head := Utf8Char(a[0]);
      assert (a + b)[1..] == a[1..] + b;
      assert Utf8(a + b) == head + (Utf8(a[1..]) + Utf8(b));
      assert Utf8(a) == head + Utf8(a[1..]);
    } else {
      assert a + b == b;
    }
  }

  /** Writing the encoding of a chunk and then that of the rest writes the
      encoding of the chunk followed by the rest. */
  lemma TextChunkThenRest(written: seq<byte>, chunk: seq<char>, rest: seq<char>)
    ensures written + Utf8(chunk) + Utf8(rest) == written + Utf8(chunk + rest)
  {
    Utf8Append(chunk, rest);
  }

  /** ASCII text encodes one byte per character. */
  lemma {:induction false} Utf8OfAscii(s: seq<char>)
    requires forall k :: 0 <= k < |s| ==> (s[k] as int) < 0x80
    ensures |Utf8(s)| == |s|
    decreases |s|
  {
    if s != [] {
      Utf8OfAscii(s[1..]);
    }
  }

  /** Every character encodes to at least one byte. */
  lemma {:induction false} Utf8NotShorter(s: seq<char>)
    ensures |Utf8(s)| >= |s|
    decreases |s|
  {
    if s != [] {
      Utf8NotShorter(s[1..]);
    }
  }

  /** What the Text branch writes after a read of `i` characters into the
      4096-character buffer `charsIn`, as written: the whole buffer,
      including characters left over from earlier reads, is encoded and
      the first `i` BYTES of that encoding are written. */
  function TextChunkAsWritten(charsIn: seq<char>, i: nat): (r: seq<byte>)
    requires i <= |charsIn|
    ensures |r| == i
  {
    Utf8NotShorter(charsIn);
    Utf8(charsIn)[..i]
  }

  /** For ASCII text the code as written puts out the encoding of exactly the
      characters read, whatever the rest of the buffer holds. */
  lemma AsciiChunkAsWrittenIsExact(charsIn: seq<char>, i: nat)
    requires i <= |charsIn|
    requires forall k :: 0 <= k < i ==> (charsIn[k] as int) < 0x80
    ensures TextChunkAsWritten(charsIn, i) == Utf8(charsIn[..i])
  {
    assert charsIn == charsIn[..i] + charsIn[i..];
    Utf8Append(charsIn[..i], charsIn[i..]);
    Utf8OfAscii(charsIn[..i]);
  }

  /** A response body of the single character U+00E9 (two bytes in UTF-8):
      the first read returns one character and the code as written puts out
      one byte, the first half of the character, instead of both. */
  lemma TextChunkAsWrittenTruncates()
    ensures var charsIn := ['é'] + seq(BufferSize - 1, _ => '\0');
      TextChunkAsWritten(charsIn, 1) == [0xC3] &&
      Utf8(charsIn[..1]) == [0xC3, 0xA9]
  {
    var charsIn := ['é'] + seq(BufferSize - 1, _ => '\0');
    assert charsIn[..1] == ['é'];
    assert Utf8(charsIn) == Utf8Char('é') + Utf8(charsIn[1..]);
    assert Utf8(['é']) == Utf8Char('é') + Utf8([]);
  }

  /** Text output, with each chunk encoded from the characters the read
      returned: the file ends up with the encoding of the whole remaining
      text appended. */
  method CopyText(reader: Source<char>, output: HdfsFile)
    requires reader.Valid()
    modifies reader, output
    ensures reader.Valid() && reader.Remaining() == []
    ensures output.contents == old(output.contents) + Utf8(old(reader.Remaining()))
  {
    var charsIn := new char[BufferSize];
    while true
      invariant reader.Valid()
      invariant output.contents + Utf8(reader.Remaining()) == old(output.contents) + Utf8(old(reader.Remaining()))
      decreases |reader.Remaining()|
    {
      ghost var before := reader.Remaining();
      var i := reader.Read(charsIn);
      if i < 0 {
        break;
      }
      var chunk := charsIn[..i];
      var bytes := Utf8(chunk);
      ghost var written := output.contents;
      assert before == chunk + reader.Remaining();
      output.Write(bytes, 0, |bytes|);
      assert bytes[0..|bytes|] == bytes;
      assert output.contents == written + bytes;
      TextChunkThenRest(written, chunk, reader.Remaining());
    }
  }

  // ---------------------------------------------------------------------
  // Response headers and published arguments
  // ---------------------------------------------------------------------

  /** HttpURLConnection.getHeaderFields(): the status line comes under a
      null name; a value list may hold nulls. */
  type HeaderFields = map<Option<string>, seq<Option<string>>>

  predicate IsSome(v: Option<string>)
  {
    v.Some?
  }

  /** The values that are not null, in order. */
  function NonNull(values: seq<Option<string>>): (r: seq<string>)
    ensures |r| <= |values|
    ensures forall v :: v in r <==> Some(v) in values
    decreases |values|
  {
    if values == [] then []
    else
      var rest := NonNull(values[1..]);
      assert values == [values[0]] + values[1..];
      if values[0].Some? then [values[0].value] + rest else rest
  }

  /** Skipping nulls at the end of a list: a trailing value is kept when it
      is not null. */
  lemma {:induction false} NonNullAppend(values: seq<Option<string>>, last: Option<string>)
    ensures NonNull(values + [last]) == NonNull(values) + (if last.Some? then [last.value] else [])
    decreases |values|
  {
    if values != [] {
      NonNullAppend(values[1..], last);
      assert (values + [last])[1..] == values[1..] + [last];
    }
  }

  /** Skipping nulls keeps the other values in their order, repeats
      included: the j-th value kept is the value at the j-th non-null
      position, and every non-null position is among them. */
  lemma {:induction false} NonNullKeepsOrder(values: seq<Option<string>>)
    ensures var r, idx := NonNull(values), Positions(values, IsSome);
      |idx| == |r| &&
      (forall j :: 0 <= j < |idx| ==> idx[j] < |values| && values[idx[j]].Some? && r[j] == values[idx[j]].value) &&
      (forall j, j' :: 0 <= j < j' < |idx| ==> idx[j] < idx[j']) &&
      (forall k :: 0 <= k < |values| && values[k].Some? ==> k in idx)
  {
    PositionsAreExact(values, IsSome);
    NonNullAtPositions(values);
  }

  lemma {:induction false} NonNullAtPositions(values: seq<Option<string>>)
    ensures var r, idx := NonNull(values), Positions(values, IsSome);
      |idx| == |r| &&
      forall j :: 0 <= j < |idx| ==> idx[j] < |values| && values[idx[j]].Some? && r[j] == values[idx[j]].value
    decreases |values|
  {
    if values != [] {
      var init, last := values[..|values| - 1], values[|values| - 1];
      NonNullAtPositions(init);
      assert values == init + [last];
      NonNullAppend(init, last);
      var r0, idx0 := NonNull(init), Positions(init, IsSome);
      var r, idx := NonNull(values), Positions(values, IsSome);
      assert idx == idx0 + (if IsSome(last) then [|values| - 1] else []);
      assert r == r0 + (if last.Some? then [last.value] else []);
      forall j | 0 <= j < |idx0|
        ensures idx[j] < |values| && values[idx[j]].Some? && r[j] == values[idx[j]].value
      {
        assert idx[j] == idx0[j] && r[j] == r0[j];
        assert values[idx0[j]] == init[idx0[j]];
      }
    }
  }

  /** Joiner.on(',').skipNulls().join(values). */
  function JoinSkipNulls(values: seq<Option<string>>): string
  {
    Join(NonNull(values), ',')
  }

  /** Splitting a joined header value on commas gives back its non-null
      elements, when none of them holds a comma itself. */
  lemma JoinSkipNullsRoundTrip(values: seq<Option<string>>)
    requires NonNull(values) != []
    requires forall v :: Some(v) in values ==> ',' !in v
    ensures Pieces(JoinSkipNulls(values), ',') == NonNull(values)
  {
    var parts := NonNull(values);
    forall k | 0 <= k < |parts| ensures ',' !in parts[k] {
      assert parts[k] in parts;
    }
    PiecesOfJoin(parts, ',');
  }

  /** The flattened response headers: every named header with its values
      joined by commas; the status line and empty names are dropped. */
  function Flattened(fields: HeaderFields): (r: map<string, string>)
    ensures forall name :: name in r <==> Some(name) in fields && name != ""
    ensures forall name :: name in r ==> r[name] == JoinSkipNulls(fields[Some(name)])
  {
    var names := set k | k in fields.Keys && !IsNullOrEmpty(k) :: k.value;
    assert forall name :: name in names <==> Some(name) in fields && name != "" by {
      forall name ensures name in names <==> Some(name) in fields && name != "" {
        if Some(name) in fields && name != "" {
          assert Some(name).value == name;
        }
      }
    }
    map name | name in names :: JoinSkipNulls(fields[Some(name)])
  }

  /** The loop that builds the flattened map, one header at a time. */
  method FlattenHeaders(fields: HeaderFields) returns (flattened: map<string, string>)
    ensures flattened == Flattened(fields)
  {
    flattened := map[];
    var todo := fields.Keys;
    while todo != {}
      invariant todo <= fields.Keys
      invariant forall name :: name in flattened <==>
        Some(name) in fields && Some(name) !in todo && name != ""
      invariant forall name :: name in flattened ==> flattened[name] == JoinSkipNulls(fields[Some(name)])
      decreases |todo|
    {
      var k :| k in todo;
      if !IsNullOrEmpty(k) {
        flattened := flattened[k.value := JoinSkipNulls(fields[k])];
      }
      todo := todo - {k};
    }
    var expected := Flattened(fields);
    assert flattened.Keys == expected.Keys;
    assert forall name :: name in flattened ==> flattened[name] == expected[name];
  }

  /** A runtime argument the action publishes: the file path, or the
      flattened response headers (published as JSON, which is not
      modelled). */
  datatype Argument = FilePath(path: string) | Headers(headers: map<string, string>)

  /** The context's settable arguments. */
  class Arguments {
    var values: map<Option<string>, Argument>

    constructor (values: map<Option<string>, Argument>)
      ensures this.values == values
    {
      this.values := values;
    }

    method Set(name: Option<string>, value: Argument)
      modifies this
      ensures values == old(values)[name := value]
    {
      values := values[name := value];
    }
  }
}
