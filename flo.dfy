/**
 * `read_flo` of demo.py: the reader for the Middlebury `.flo` optical-flow
 * container. A file is the tag `PIEH`, a little-endian width, a little-endian
 * height and then the flow as little-endian 32-bit values, two per pixel, row
 * by row. The reader returns an array of shape (height, width, 2) whose two
 * components per pixel are in the reverse of their file order.
 */
module FlowIO {
  import opened Wrappers
  import opened Bytes
  import opened Arrays

  /** The ASCII bytes of the tag `PIEH`. */
  const Magic: seq<byte> := [0x50, 0x49, 0x45, 0x48]

  /** A decoded flow field: the array of shape (height, width, 2) that `read_flo` returns. */
  datatype Flow = Flow(height: nat, width: nat, grid: Grid)

  /** The ValueErrors `read_flo` raises: its own tag check, or one of NumPy's. */
  datatype FloError =
    | WrongFileFormat
    | Numpy(cause: ArrayError)

  /**
   * `f.read(n)` on a file whose cursor is at `pos`: up to n bytes, fewer at
   * the end of the file, and the cursor after them.
   */
  function Read(file: seq<byte>, pos: nat, n: nat): (r: (seq<byte>, nat))
    requires pos <= |file|
    ensures pos <= r.1 <= |file|
    ensures r.0 == file[pos..r.1]
    ensures |r.0| == Min(n, |file| - pos)
  {
    var end := Min(pos + n, |file|);
    (file[pos..end], end)
  }

  /** Turning the bytes after the header into the (h, w, 2) array, components reversed. */
  function Arrange(w: nat, h: nat, rest: seq<byte>): (r: Result<Flow, FloError>)
    ensures r.Ok? <==> |rest| % 4 == 0 && |rest| / 4 == h * w * 2
    ensures r.Err? ==> r.error.Numpy?
    ensures r.Ok? ==> r.value.height == h && r.value.width == w && HasShape(r.value.grid, h, w)
  {
    match FromBuffer(rest)
    case Err(e) => Err(Numpy(e))
    case Ok(data) =>
      match Reshape(data, h, w)
      case Err(e) => Err(Numpy(e))
      case Ok(grid) => Ok(Flow(h, w, ReverseLastAxis(grid)))
  }

  /** The payload arranges exactly when it holds 4 bytes for each of the 2 w h components. */
  lemma ArrangeSucceedsIff(w: nat, h: nat, rest: seq<byte>)
    ensures Arrange(w, h, rest).Ok? <==> |rest| == 4 * 2 * w * h
  {
    var n := h * w * 2;
    assert 4 * 2 * w * h == 4 * n;
    assert Arrange(w, h, rest).Ok? <==> |rest| % 4 == 0 && |rest| / 4 == n;
  }

  /** What a successful arrangement holds: the payload words, regrouped row-major, each cell reversed. */
  lemma ArrangeValue(w: nat, h: nat, rest: seq<byte>)
    requires Arrange(w, h, rest).Ok?
    ensures |rest| % 4 == 0 && |Words(rest)| == h * (2 * w)
    ensures Arrange(w, h, rest).value == Flow(h, w, ReverseLastAxis(Rows(Words(rest), h, w)))
  {
    assert |Words(rest)| == h * w * 2;
  }

  /** The bytes of h w cells of words arrange into exactly those words, regrouped and reversed. */
  lemma ArrangeWords(w: nat, h: nat, words: seq<u32>)
    requires |words| == h * (2 * w)
    ensures Arrange(w, h, Unwords(words)) == Ok(Flow(h, w, ReverseLastAxis(Rows(words, h, w))))
  {
    WordsUnwords(words);
    CountOrders(w, h);
    assert FromBuffer(Unwords(words)) == Ok(words);
  }

  /** Writing the words of a successful arrangement back, in file order, gives the payload back. */
  lemma ArrangeInverse(w: nat, h: nat, rest: seq<byte>)
    requires Arrange(w, h, rest).Ok?
    ensures Unwords(Flatten(ReverseLastAxis(Arrange(w, h, rest).value.grid))) == rest
  {
    ArrangeValue(w, h, rest);
    var grid := Rows(Words(rest), h, w);
    ReverseLastAxisInvolution(grid);
    FlattenRows(Words(rest), h, w);
    UnwordsWords(rest);
  }

  /** Component k of pixel (r, c) of an arrangement is payload word 2 (r w + c) + (1 - k). */
  lemma ArrangeAt(w: nat, h: nat, rest: seq<byte>, r: nat, c: nat, k: nat)
    requires Arrange(w, h, rest).Ok? && r < h && c < w && k < 2
    ensures 4 * FlatIndex(w, r, c, 1 - k) + 4 <= |rest|
    ensures var j := FlatIndex(w, r, c, 1 - k);
      Arrange(w, h, rest).value.grid[r][c][k] == DecodeWord(rest[4 * j..4 * j + 4])
  {
    ArrangeValue(w, h, rest);
    var data := Words(rest);
    ReversedRowsAt(data, h, w, r, c, k);
    WordsAt(rest, FlatIndex(w, r, c, 1 - k));
  }

  /** `read_flo`, with the opened file given as its bytes. */
  function ReadFlo(file: seq<byte>): (r: Result<Flow, FloError>)
    ensures !HasMagic(file) ==> r == Err(WrongFileFormat)
    ensures r.Ok? ==> HasShape(r.value.grid, r.value.height, r.value.width)
  {
    var (format, afterTag) := Read(file, 0, 4);
    if format != Magic then Err(WrongFileFormat)
    else
      var (widthBytes, afterWidth) := Read(file, afterTag, 4);
      var w := FromBytesLittle(widthBytes);
      var (heightBytes, afterHeight) := Read(file, afterWidth, 4);
      var h := FromBytesLittle(heightBytes);
      Arrange(w, h, file[afterHeight..])
  }

  // ---------------------------------------------------------------------------
  // The layout of a file, stated by slicing rather than through the cursor.

  /** The file starts with the four bytes `PIEH`. */
  predicate HasMagic(file: seq<byte>)
  {
    |file| >= 4 && file[..4] == Magic
  }

  /** The (possibly short) four-byte header field starting at byte `at`. */
  function HeaderField(file: seq<byte>, at: nat): seq<byte>
  {
    file[Min(at, |file|)..Min(at + 4, |file|)]
  }

  /** The width field: bytes 4 to 7. */
  function HeaderWidth(file: seq<byte>): nat
  {
    FromBytesLittle(HeaderField(file, 4))
  }

  /** The height field: bytes 8 to 11. */
  function HeaderHeight(file: seq<byte>): nat
  {
    FromBytesLittle(HeaderField(file, 8))
  }

  /** Everything after the 12-byte header. */
  function Payload(file: seq<byte>): seq<byte>
  {
    file[Min(12, |file|)..]
  }

  /** Payload word j, decoded from bytes 12 + 4j to 15 + 4j. */
  function PayloadWord(file: seq<byte>, j: nat): u32
    requires 16 + 4 * j <= |file|
  {
    DecodeWord(file[12 + 4 * j..16 + 4 * j])
  }

  /** A flow that a `.flo` file can describe: dimensions that fit the 32-bit fields, shape (h, w, 2). */
  predicate ValidFlow(f: Flow)
  {
    f.width < 0x1_0000_0000 && f.height < 0x1_0000_0000 && HasShape(f.grid, f.height, f.width)
  }

  /** The bytes of a `.flo` file holding `f`, components back in file order. */
  function WriteFlo(f: Flow): (file: seq<byte>)
    requires ValidFlow(f)
  {
    Magic + EncodeWord(f.width as u32) + EncodeWord(f.height as u32)
      + Unwords(Flatten(ReverseLastAxis(f.grid)))
  }
}
