/** What `read_flo` accepts, what it rejects, and where each word of the file ends up. */
module FloProperties {
  import opened Wrappers
  import opened Bytes
  import opened Arrays
  import opened FlowIO

  /** After the tag, the three cursor reads take exactly the header fields and the payload. */
  lemma ReadFloSlices(file: seq<byte>)
    requires HasMagic(file)
    ensures ReadFlo(file) == Arrange(HeaderWidth(file), HeaderHeight(file), Payload(file))
  {
    assert Read(file, 0, 4).0 == Magic;
    assert Read(file, 4, 4).1 == Min(8, |file|);
    assert Read(file, Min(8, |file|), 4).1 == Min(12, |file|);
  }

  /** The tag check: an input is rejected as the wrong format exactly when it does not start with `PIEH`. */
  lemma RejectsWrongMagic(file: seq<byte>)
    ensures ReadFlo(file) == Err(WrongFileFormat) <==> !HasMagic(file)
  {
    if HasMagic(file) {
      ReadFloSlices(file);
    } else if |file| >= 4 {
      assert Read(file, 0, 4).0 == file[..4];
    } else {
      assert |Read(file, 0, 4).0| < 4;
    }
  }

  /** The header fields fit 32 bits; the width is read first, from bytes 4 to 7. */
  lemma HeaderBounds(file: seq<byte>)
    ensures HeaderWidth(file) < 0x1_0000_0000 && HeaderHeight(file) < 0x1_0000_0000
  {
    Pow256Four();
    assert |HeaderField(file, 4)| <= 4 && |HeaderField(file, 8)| <= 4;
    Pow256Monotone(|HeaderField(file, 4)|, 4);
    Pow256Monotone(|HeaderField(file, 8)|, 4);
  }

  lemma {:induction false} Pow256Monotone(m: nat, n: nat)
    requires m <= n
    ensures Pow256(m) <= Pow256(n)
  {
    if m < n {
      Pow256Monotone(m, n - 1);
    }
  }

  /**
   * Success exactly when the tag is right and the payload holds 4 * 2 * w * h
   * bytes: one 4-byte word per component, two components per pixel.
   */
  lemma SucceedsIff(file: seq<byte>)
    ensures ReadFlo(file).Ok? <==>
      HasMagic(file) && |Payload(file)| == 4 * 2 * HeaderWidth(file) * HeaderHeight(file)
  {
    RejectsWrongMagic(file);
    if HasMagic(file) {
      ReadFloSlices(file);
      ArrangeSucceedsIff(HeaderWidth(file), HeaderHeight(file), Payload(file));
    }
  }

  /**
   * The two NumPy failures: a payload that is not a whole number of words
   * fails in `frombuffer`, one with the wrong number of words in `reshape`.
   */
  lemma FailureCauses(file: seq<byte>)
    requires HasMagic(file)
    ensures |Payload(file)| % 4 != 0 ==>
      ReadFlo(file) == Err(Numpy(BufferSizeNotMultiple(|Payload(file)|)))
    ensures |Payload(file)| % 4 == 0 && |Payload(file)| / 4 != HeaderHeight(file) * HeaderWidth(file) * 2 ==>
      ReadFlo(file) == Err(Numpy(CannotReshape(|Payload(file)| / 4, HeaderHeight(file), HeaderWidth(file))))
  {
    ReadFloSlices(file);
  }

  /** A decoded flow has the header's height and width, and shape (height, width, 2). */
  lemma ReadFloShape(file: seq<byte>)
    requires ReadFlo(file).Ok?
    ensures HasMagic(file)
    ensures ReadFlo(file).value.width == HeaderWidth(file)
    ensures ReadFlo(file).value.height == HeaderHeight(file)
    ensures ValidFlow(ReadFlo(file).value)
  {
    RejectsWrongMagic(file);
    ReadFloSlices(file);
    HeaderBounds(file);
    var w, h, rest := HeaderWidth(file), HeaderHeight(file), Payload(file);
    ArrangeValue(w, h, rest);
    RowsShape(Words(rest), h, w);
    ReverseLastAxisShape(Rows(Words(rest), h, w), h, w);
  }

  /**
   * Row-major layout with the components swapped: component k of pixel
   * (r, c) is payload word 2 (r w + c) + (1 - k), bit for bit.
   */
  lemma ReadFloAt(file: seq<byte>, r: nat, c: nat, k: nat)
    requires ReadFlo(file).Ok?
    requires r < ReadFlo(file).value.height && c < ReadFlo(file).value.width && k < 2
    ensures var j := FlatIndex(HeaderWidth(file), r, c, 1 - k);
      && 16 + 4 * j <= |file|
      && ReadFlo(file).value.grid[r][c][k] == PayloadWord(file, j)
      && EncodeWord(ReadFlo(file).value.grid[r][c][k]) == file[12 + 4 * j..16 + 4 * j]
  {
    ReadFloShape(file);
    ReadFloSlices(file);
    var w, h, rest := HeaderWidth(file), HeaderHeight(file), Payload(file);
    ArrangeAt(w, h, rest, r, c, k);
    var j := FlatIndex(w, r, c, 1 - k);
    assert |file| >= 12 && rest == file[12..];
    var at := 4 * j;
    assert at + 4 <= |rest|;
    PayloadSlice(file, at);
    EncodeDecodeWord(file[12 + at..16 + at]);
  }

  lemma PayloadSlice(file: seq<byte>, at: nat)
    requires 12 + at + 4 <= |file|
    ensures Payload(file)[at..at + 4] == file[12 + at..16 + at]
  {
  }

  /**
   * The whole layout at once: the result is the payload's words regrouped
   * row-major into (height, width, 2), component 0 of each pixel being the
   * file's second value and component 1 its first.
   */
  lemma ReadFloLayout(file: seq<byte>)
    requires ReadFlo(file).Ok?
    ensures |Payload(file)| % 4 == 0
    ensures SwappedLayout(ReadFlo(file).value.grid, Words(Payload(file)), HeaderHeight(file), HeaderWidth(file))
  {
    ReadFloSlices(file);
    RejectsWrongMagic(file);
    var w, h, rest := HeaderWidth(file), HeaderHeight(file), Payload(file);
    ArrangeValue(w, h, rest);
    ReversedRowsLayout(Words(rest), h, w);
  }

  /** Every payload word appears in the result exactly as often as in the file: a pure permutation. */
  lemma ReadFloPermutes(file: seq<byte>)
    requires ReadFlo(file).Ok?
    ensures |Payload(file)| % 4 == 0
    ensures multiset(Flatten(ReadFlo(file).value.grid)) == multiset(Words(Payload(file)))
  {
    ReadFloShape(file);
    ReadFloSlices(file);
    var w, h, rest := HeaderWidth(file), HeaderHeight(file), Payload(file);
    ArrangeValue(w, h, rest);
    var data := Words(rest);
    FlattenRows(data, h, w);
    ReverseLastAxisMultiset(Rows(data, h, w));
  }

  /** `PIEH` and fewer than four more bytes: a short width, height 0, and an empty array. */
  lemma ShortWidthField(file: seq<byte>)
    requires HasMagic(file) && |file| < 8
    ensures ReadFlo(file) == Ok(Flow(0, FromBytesLittle(file[4..]), []))
  {
    ReadFloSlices(file);
    assert HeaderField(file, 4) == file[4..];
    assert HeaderField(file, 8) == [];
    assert Payload(file) == [];
    assert Words([]) == [];
  }

  /**
   * A full width but a short height field: the height is decoded from the
   * bytes there are, and the read succeeds exactly when the array is empty.
   */
  lemma ShortHeightField(file: seq<byte>)
    requires HasMagic(file) && 8 <= |file| < 12
    ensures HeaderHeight(file) == FromBytesLittle(file[8..])
    ensures ReadFlo(file).Ok? <==> HeaderWidth(file) == 0 || HeaderHeight(file) == 0
  {
    SucceedsIff(file);
    assert HeaderField(file, 8) == file[8..];
    assert Payload(file) == [];
    EmptyCount(HeaderWidth(file), HeaderHeight(file));
  }

  lemma EmptyCount(w: nat, h: nat)
    ensures 4 * 2 * w * h == 0 <==> w == 0 || h == 0
  {
    if w != 0 && h != 0 {
      assert w * h >= 1;
    }
  }

  /**
   * A well-formed file parses to its dimensions and its payload words: the
   * tag, the width, the height and 2 w h words give shape (h, w, 2) with
   * component k of pixel (r, c) equal to word 2 (r w + c) + (1 - k).
   */
  lemma ParseWellFormed(w: nat, h: nat, words: seq<u32>)
    requires w < 0x1_0000_0000 && h < 0x1_0000_0000 && |words| == 2 * w * h
    ensures var file := Magic + EncodeWord(w as u32) + EncodeWord(h as u32) + Unwords(words);
      && ReadFlo(file).Ok?
      && ReadFlo(file).value.width == w
      && ReadFlo(file).value.height == h
      && SwappedLayout(ReadFlo(file).value.grid, words, h, w)
  {
    CountOrders(w, h);
    ReadLayout(w, h, words);
    ReversedRowsLayout(words, h, w);
  }

  lemma ReadLayout(w: nat, h: nat, words: seq<u32>)
    requires w < 0x1_0000_0000 && h < 0x1_0000_0000 && |words| == h * (2 * w)
    ensures ReadFlo(Magic + EncodeWord(w as u32) + EncodeWord(h as u32) + Unwords(words))
         == Ok(Flow(h, w, ReverseLastAxis(Rows(words, h, w))))
  {
    HeaderOf(Magic + EncodeWord(w as u32) + EncodeWord(h as u32) + Unwords(words), w, h, Unwords(words));
    ArrangeWords(w, h, words);
  }

  /** The header of a file laid out as tag, width, height, payload decodes to those parts. */
  lemma HeaderOf(file: seq<byte>, w: nat, h: nat, payload: seq<byte>)
    requires w < 0x1_0000_0000 && h < 0x1_0000_0000
    requires file == Magic + EncodeWord(w as u32) + EncodeWord(h as u32) + payload
    ensures HasMagic(file)
    ensures HeaderWidth(file) == w && HeaderHeight(file) == h && Payload(file) == payload
    ensures ReadFlo(file) == Arrange(w, h, payload)
  {
    assert file[..4] == Magic;
    assert HeaderField(file, 4) == EncodeWord(w as u32);
    assert HeaderField(file, 8) == EncodeWord(h as u32);
    assert Payload(file) == payload;
    DecodeEncodeWord(w as u32);
    DecodeEncodeWord(h as u32);
    ReadFloSlices(file);
  }

  /** Writing a flow out and reading it back gives the same flow. */
  lemma ReadWriteFlo(f: Flow)
    requires ValidFlow(f)
    ensures ReadFlo(WriteFlo(f)) == Ok(f)
  {
    var w, h := f.width, f.height;
    var flat := Flatten(ReverseLastAxis(f.grid));
    HeaderOf(WriteFlo(f), w, h, Unwords(flat));
    ReverseLastAxisShape(f.grid, h, w);
    RowsFlatten(ReverseLastAxis(f.grid), h, w);
    ArrangeWords(w, h, flat);
    ReverseLastAxisInvolution(f.grid);
  }

  /** A file with a full header that reads successfully is exactly what writing its flow produces. */
  lemma WriteReadFlo(file: seq<byte>)
    requires ReadFlo(file).Ok? && |file| >= 12
    ensures WriteFlo(ReadFlo(file).value) == file
  {
    var f := ReadFlo(file).value;
    ReadFloShape(file);
    ReadFloSlices(file);
    var w, h, rest := HeaderWidth(file), HeaderHeight(file), Payload(file);
    assert f == Arrange(w, h, rest).value;
    ArrangeInverse(w, h, rest);
    FullHeader(file);
    SplitHeader(file);
    assert WriteFlo(f) == Magic + EncodeWord(w as u32) + EncodeWord(h as u32) + rest;
  }

  lemma SplitHeader(file: seq<byte>)
    requires |file| >= 12
    ensures file == file[..4] + file[4..8] + file[8..12] + Payload(file)
  {
  }

  /** A full header is the encoding of the width and height it holds. */
  lemma FullHeader(file: seq<byte>)
    requires |file| >= 12
    ensures HeaderWidth(file) < 0x1_0000_0000 && HeaderHeight(file) < 0x1_0000_0000
    ensures EncodeWord(HeaderWidth(file) as u32) == file[4..8]
    ensures EncodeWord(HeaderHeight(file) as u32) == file[8..12]
  {
    HeaderBounds(file);
    assert HeaderField(file, 4) == file[4..8] && HeaderField(file, 8) == file[8..12];
    ToFromBytesLittle(file[4..8]);
    ToFromBytesLittle(file[8..12]);
  }
}
