# A verified model of pyinverseflow's `.flo` reader

pyinverseflow inverts a forward optical-flow field. Its demo script reads the
forward flow from a Middlebury `.flo` file with `read_flo`. This project
models that reader and proves what it accepts, what it rejects, and where
each value of the file ends up.

A `.flo` file holds, in order:

- the four ASCII bytes `PIEH`;
- the width, as an unsigned little-endian integer;
- the height, read the same way;
- the flow, as little-endian 32-bit floats, two per pixel, row by row.

`read_flo` checks the tag, decodes width then height, and reinterprets the
rest of the file as 32-bit values (`np.frombuffer`). It reshapes them to
(height, width, 2) and reverses the two values of each pixel
(`[..., ::-1]`). The reader only moves values around and does no float
arithmetic, so the model treats each value as an opaque 32-bit word. A
result word has exactly the bits of its four file bytes.

Files and modules:

- `wrappers.dfy` (`Wrappers`): `Result` for the reader's exceptions, and `Min`.
- `bytes.dfy` (`Bytes`): bytes, unsigned little-endian decoding (Python's
  `int.from_bytes(b, "little")`), and the 4-byte words of the payload.
- `arrays.dfy` (`Arrays`): the three NumPy operations the reader uses,
  `frombuffer`, `reshape((h, w, 2))` and `[..., ::-1]`. Each one fails where
  NumPy raises `ValueError`. The module also has the row-major flattening
  that undoes the reshape.
- `flo.dfy` (`FlowIO`): `ReadFlo`. The file cursor is modelled by `Read`,
  which returns fewer bytes at the end of the file. The module also has the
  file layout stated by slicing (`HasMagic`, `HeaderWidth`, `HeaderHeight`,
  `Payload`) and `WriteFlo`, which lays a flow out as a file.
- `flo_properties.dfy` (`FloProperties`): the properties of `ReadFlo`.

All three exceptions are Python's `ValueError`. The model tells them apart:
`WrongFileFormat` for the tag check, `Numpy(BufferSizeNotMultiple(size))`
from `frombuffer`, and `Numpy(CannotReshape(count, h, w))` from `reshape`.

The pixel components follow the code. Component 0 of a result pixel is the
second value stored for that pixel in the file, and component 1 is the
first. This is consistent with the demo, which plots component 1 of the
inverted flow as `u` (demo.py:38-43).

A short header field is decoded from the bytes that are there, as the code
does; `f.read(4)` simply returns fewer bytes. For example, `PIEH` followed by
fewer than four bytes gives height 0 and an empty array, and does not fail.

## Model

| member | source | states |
|---|---|---|
| `Bytes.FromBytesLittle` | demo.py:17-18 | An n-byte field decodes to an unsigned value below 256^n. No bytes decode to 0. |
| `Bytes.FromToBytesLittle` | demo.py:17-18 | Little-endian decoding inverts little-endian encoding for every value that fits in the field. |
| `Bytes.ToFromBytesLittle` | demo.py:17-18 | Decoding any field and re-encoding it at the same length gives back the same bytes, so the decoding is injective. |
| `Bytes.DecodeEncodeWord` | demo.py:19 | A 32-bit word survives being written as four little-endian bytes and read back. |
| `Bytes.EncodeDecodeWord` | demo.py:19 | Four bytes survive being read as a word and written back, so no bit is altered. |
| `Bytes.WordsAt` | demo.py:19 | Word j of a buffer is decoded from bytes 4j to 4j+3 only. |
| `Bytes.UnwordsWords` | demo.py:19 | Splitting a buffer into words and writing them back reproduces the buffer. |
| `Bytes.WordsUnwords` | demo.py:19 | Writing words out and splitting the bytes again reproduces the words. |
| `Arrays.FromBuffer` | demo.py:19 | `frombuffer` succeeds exactly when the buffer length is a multiple of 4, and otherwise reports the length. On success it yields length/4 words whose bytes are the buffer. |
| `Arrays.Reshape` | demo.py:20 | `reshape((h, w, 2))` succeeds exactly when there are h·w·2 words, and then has shape (h, w, 2). Otherwise it reports the count and the requested shape. |
| `Arrays.RowsAt` | demo.py:20 | Row-major reshape: element (r, c, k) is word 2(r·w + c) + k. |
| `Arrays.FlattenRows` | demo.py:20 | Flattening the reshaped array gives the words back, so the reshape neither loses nor adds a word. |
| `Arrays.RowsFlatten` | demo.py:20 | Reshaping the flattened words of any (h, w, 2) array gives the array back. |
| `Arrays.ReverseLastAxis` | demo.py:20 | `[..., ::-1]` keeps the number of rows and of cells in every row; `ReverseLastAxisAt` and the lemmas after it state what happens inside each cell. |
| `Arrays.ReverseLastAxisAt` | demo.py:20 | `[..., ::-1]` on an (h, w, 2) array swaps the two components of every cell. |
| `Arrays.ReverseLastAxisShape` | demo.py:20 | `[..., ::-1]` keeps the shape (h, w, 2). |
| `Arrays.ReverseLastAxisInvolution` | demo.py:20 | Reversing the last axis twice is the identity. |
| `Arrays.ReverseLastAxisMultiset` | demo.py:20 | Reversing the last axis keeps every word and adds none. |
| `Arrays.ReversedRowsLayout` | demo.py:20 | Reshaping then reversing places word 2(r·w + c) + 1 at (r, c, 0) and word 2(r·w + c) at (r, c, 1). |
| `FlowIO.Read` | demo.py:14-19 | `f.read(n)` returns the next min(n, remaining) bytes and moves the cursor past them, never beyond the end. |
| `FlowIO.Arrange` | demo.py:19-20 | The `frombuffer`, `reshape`, `[..., ::-1]` chain on the bytes after the header: it succeeds exactly when they are a whole number of words and there are h·w·2 of them, every failure is a NumPy error, and a result has height h, width w and shape (h, w, 2). Its contents are stated by `ArrangeValue` and `ArrangeAt`. |
| `FlowIO.ArrangeSucceedsIff` | demo.py:19-20 | The bytes after the header turn into an array exactly when there are 4·2·w·h of them. |
| `FlowIO.ReadFlo` | demo.py:9-21 | `read_flo` itself: an input that does not start with `PIEH` is rejected as the wrong file format, and a result always has shape (height, width, 2). The lemmas of `FloProperties` below state the rest of its behaviour. |
| `FloProperties.ReadFloSlices` | demo.py:13-19 | Once the tag matches, the three cursor reads and the final read return exactly bytes 4-7, bytes 8-11 and everything from byte 12, each cut short at the end of the file. |
| `FloProperties.RejectsWrongMagic` | demo.py:14-16 | The reader reports the wrong file format exactly when the input does not start with `PIEH`. This includes every input shorter than 4 bytes. |
| `FloProperties.HeaderBounds` | demo.py:17-18 | Width and height are each below 2^32. |
| `FloProperties.SucceedsIff` | demo.py:14-20 | The read succeeds exactly when the tag matches and the payload is 4·2·w·h bytes, where w and h are the decoded header fields. |
| `FloProperties.FailureCauses` | demo.py:19-20 | With a correct tag, a payload whose length is not a multiple of 4 fails in `frombuffer`. A payload with the wrong number of words fails in `reshape`, which reports that number and the shape. |
| `FloProperties.ReadFloShape` | demo.py:17-20 | On success the result's width is the field at bytes 4-7 and its height the field at bytes 8-11. Its shape is (height, width, 2). |
| `FloProperties.ReadFloAt` | demo.py:19-21 | On success, component k of pixel (r, c) is payload word 2(r·w + c) + (1 − k). Its four bytes are exactly the file bytes of that word. |
| `FloProperties.ReadFloLayout` | demo.py:19-21 | On success the whole result is the payload words laid out row-major with the two components of every pixel swapped. |
| `FloProperties.ReadFloPermutes` | demo.py:19-21 | On success the result holds every payload word exactly as many times as the payload does: the parse is a permutation. |
| `FloProperties.ShortWidthField` | demo.py:17-20 | `PIEH` followed by fewer than four bytes reads successfully. The width comes from the bytes present, the height is 0 and the array is empty. |
| `FloProperties.ShortHeightField` | demo.py:18-20 | With a complete width but fewer than four height bytes, the height comes from the bytes present. The read succeeds exactly when width or height is 0. |
| `FloProperties.ParseWellFormed` | demo.py:13-21 | For w, h < 2^32 and exactly 2·w·h words, the file `PIEH` ++ LE32(w) ++ LE32(h) ++ words reads as width w and height h, with those words in the swapped row-major layout. |
| `FloProperties.ReadWriteFlo` | demo.py:13-21 | Every flow that a `.flo` file can describe survives `WriteFlo` followed by `ReadFlo` unchanged. |
| `FloProperties.WriteReadFlo` | demo.py:13-21 | A file with a complete header that reads successfully is byte for byte what `WriteFlo` produces from the result. |

## Left out

- The call to the `inverse_flow` extension, the inversion algorithm and the mask (demo.py:6, demo.py:29-34): they are implemented in `pyinverseflow.pyx` and C++ sources not part of this model.
- Image loading with `imageio` and the division by 255 (demo.py:24-26): a foreign library and float arithmetic.
- Opening the file by name (demo.py:13, demo.py:27): I/O. The model takes the file's bytes as its input.
- Reading payload words as IEEE-754 floats (demo.py:19): the words are kept opaque. The model assumes that NumPy copies float32 values bit for bit and that `np.ascontiguousarray` (demo.py:21) changes only the memory layout. So `ReadFlo` returns the reversed array itself.
- The behaviour of NumPy is assumed, not proved: `frombuffer` fails only on a length that is not a multiple of 4, and gives an empty array for an empty buffer; `reshape` fails only on an element-count mismatch.
- Plotting with matplotlib (demo.py:36-48): UI.
- setup.py (setup.py:1-21): build and packaging glue.
- `WriteFlo` is not a function of this repository: it is the file layout that `read_flo` accepts, written out so that the round trips can be stated.
