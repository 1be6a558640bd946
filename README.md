# TLV fuzzer core, modelled in Dafny

The fuzzer targets an MMS server. It parses each captured MMS payload into a flat list of
tag-length-value triples (`parseTLV`). The tags follow the BER rules of ITU-T X.690:
section 8.1.2.4 covers the high-tag-number form and section 8.1.2.5 the constructed bit.
The length is a single byte. The fuzzer then turns that list into a tree of boofuzz
primitives (`setupFuzzTLV`), named from a global counter `nameCount`. `recomposeTLV`
concatenates such a list back into bytes. A second, simpler fuzzer (`POC.py`) flips
`amount` distinct random bits of a raw payload (`mutate`, built on `flipBit`).

Four modules:

- `Bits` (`bits.dfy`): `getBit` and `getBits` on non-negative integers. Also big-endian
  bit strings as Python's `bitarray(endian="big")` lays out a byte.
- `Tlv` (`tlv.dfy`):
  - `Parse` and `Recompose` are the specification functions.
  - `ParseTLV` and `RecomposeTLV` are the source's loops, proved against them.
  - Both round trips are proved, along with the shape of what the parser returns.
  - Python's clamping slices are modelled by `Slice`.
- `FuzzTree` (`fuzz_tree.dfy`):
  - The boofuzz primitives are a `Field` datatype, recording only the arguments the
    fuzzer passes them.
  - `Setup` is the specification.
  - `FieldTreeBuilder` is a class whose field `nameCount` is the module-level counter.
    Its method `SetupFuzzTLV` is the source's loop, recursion included.
- `BitFlip` (`bit_flip.dfy`): `flipBit` on the big-endian bit array of a byte string, and
  `mutate`.
  - The values `random.randint` returns are a parameter `draws`: the stream of values it
    would return, in order.
  - `DrawTargets` is the drawing loop and `Mutate` the whole function.

The code rejects no malformed input with an error of its own; in particular:

- A length byte larger than the bytes that remain is not an error in the code. The value
  slice is cut short and the cursor jumps past the end (`Tlv.ExampleShortValue`).
- A long tag that does not end inside the buffer is not an error either. When a byte
  follows the first tag byte, or the first tag byte has bit 7 set, the tag loop spins
  forever. When the first tag byte is the last byte of the buffer and has bit 7 clear,
  the loop stops and reading the length byte raises IndexError. `Parsable` excludes
  both, and `Tlv.ContinuationEndNone` characterises the tags that do not end.
- The name counter is a global that no call resets. Two trees built one after the other
  can therefore share one block name (`FuzzTree.SuccessiveCalls`,
  `FuzzTree.BlockNameReuse`). The fuzzer builds a separate request per packet, so this
  reuse causes no clash inside any one tree.
- Asking `mutate` for more distinct bits than a non-empty buffer has makes its drawing
  loop run forever; it raises no error. For an empty buffer and a positive `amount`,
  `randint(0, -1)` raises ValueError before any bit is drawn (`BitFlip.MutateNeedsRoom`).

## Model

| member | source | states |
|---|---|---|
| Bits.GetBit | fuzzer.py:17-18 | `(byte >> ind) & 1` is 0 or 1 |
| Bits.GetBits | fuzzer.py:20-21 | `getBits(x, s, e)` is below `2^(e-s+1)` |
| Bits.GetBitIsBitAt | fuzzer.py:17-18 | getBit reads exactly bit `ind` of the number, as repeated halving defines it |
| Bits.GetBitsIsBitsValue | fuzzer.py:20-21 | getBits equals bits `s..e` of the number, each at its own weight |
| Bits.TagBitTests | fuzzer.py:31-45 | the three tests the parser makes are `x % 32`, bit 5 and bit 7 |
| Bits.BitsBEAt | POC.py:14-15 | position `k` of a byte's big-endian bit string is bit `7-k` of the byte |
| Bits.FromBitsOfBits | POC.py:14-17 | reading the `w` bits of `x` back gives `x mod 2^w` |
| Bits.BitsOfFromBits | POC.py:14-17 | a bit string read as a number and written back is unchanged |
| Tlv.Slice | fuzzer.py:33-43 | a Python slice is never longer than the buffer, and is exactly `s[lo:hi]` when both bounds lie inside it; so a value covers exactly `length` bytes whenever they are there |
| Tlv.ParseTLV | fuzzer.py:23-50 | the cursor loop returns `Parse(block)`; the result is well shaped and recomposes to `block`; the empty buffer gives the empty list |
| Tlv.ReadTag | fuzzer.py:29-39 | the tag loop reads exactly the tag: one byte, or for low bits 31 up to and including the first later byte with bit 7 clear |
| Tlv.ElementBounds | fuzzer.py:28-41 | on a buffer parseTLV returns on, the element at the cursor has a complete tag and a length byte |
| Tlv.ValueBounds | fuzzer.py:43-46 | the value slice is shorter than the buffer and parses when the tag is constructed |
| Tlv.Advance | fuzzer.py:40-48 | one loop turn appends tag, length and value-or-nested-list, and the cursor moves by `tagLen + 1 + length` |
| Tlv.ParseWellShaped | fuzzer.py:23-50 | the result comes in triples: a BER-shaped tag, a one-byte length, then a nested list exactly when bit 5 of the first tag byte is set |
| Tlv.TagShape | fuzzer.py:29-39 | the tag read has the BER shape: one byte if the low five bits are not 31, otherwise continuation bytes with bit 7 set and a last byte with bit 7 clear |
| Tlv.TagLengthOfValidTag | fuzzer.py:29-39 | a BER-shaped tag is read back whole, whatever follows it |
| Tlv.ContinuationEndShape | fuzzer.py:35-38 | the run the inner tag loop stops at has bit 7 set on all bytes but the last |
| Tlv.ContinuationEndNone | fuzzer.py:29-39 | no end of a long tag is found exactly when every byte from the given position on has bit 7 set |
| Tlv.RecomposeTLV | fuzzer.py:52-63 | the loop returns `Recompose(tlv)`: every payload in order, nested lists recomposed |
| Tlv.RecomposeConcat | fuzzer.py:52-63 | recomposeTLV distributes over list concatenation |
| Tlv.RecomposeWidth | fuzzer.py:52-63 | the output length is the sum of the entries' byte lengths |
| Tlv.RoundTrip | fuzzer.py:23-63 | `recomposeTLV(parseTLV(b)) == b` for every buffer on which parseTLV returns |
| Tlv.ParseRecompose | fuzzer.py:23-63 | every well-shaped list whose length bytes match its values recomposes to a buffer that parses back to the same list |
| Tlv.ExampleConstructed | fuzzer.py:23-50 | `A0 03 80 01 05` parses to a constructed element holding one primitive element, and recomposes to itself |
| Tlv.ExampleShortValue | fuzzer.py:41-44 | the buffer `80 05 01`, whose length byte claims five bytes where one remains, parses without error to tag `80`, length `05` and the one-byte value `01` |
| FuzzTree.Decimal | fuzzer.py:72 | `str(n)` is a non-empty string of digits, one digit exactly for `n < 10` |
| FuzzTree.Render | fuzzer.py:72-83 | a name string is its stem (`"Tag"`, `"Length"`, `"Value"` or `"TLV"`) followed by at least one decimal digit and nothing else |
| FuzzTree.DecimalInjective | fuzzer.py:72-80 | different counter values print differently |
| FuzzTree.RenderInjective | fuzzer.py:72-83 | different (stem, counter) names give different strings |
| FuzzTree.RenderExample | fuzzer.py:74-80 | names print as `"TLV12"`, `"Length0"` |
| FuzzTree.Repoint | fuzzer.py:80 | `children[-1].block_name = ...` sets the target of a last Size child and changes nothing else: the list length, every earlier child and the last child's name are kept, and a list whose last child is no Size is returned as it was |
| FuzzTree.Step | fuzzer.py:71-81 | one loop turn appends exactly one child and never decreases the counter |
| FuzzTree.Fold | fuzzer.py:70-81 | the loop makes one child per entry and never decreases the counter |
| FuzzTree.FieldTreeBuilder.constructor | fuzzer.py:65 | the counter starts at 0 |
| FuzzTree.FieldTreeBuilder.SetupFuzzTLV | fuzzer.py:66-84 | the loop, with its recursive call, returns the block `Setup` specifies and leaves `nameCount` where `Setup` says |
| FuzzTree.FoldCount | fuzzer.py:75-79 | nameCount grows by one per VALUE entry and one per TLV entry, at every depth |
| FuzzTree.StepCount | fuzzer.py:71-81 | one loop turn moves nameCount by one for a VALUE entry, by one plus the nested increments for a TLV entry, and not at all otherwise |
| FuzzTree.IncrementsConcat | fuzzer.py:75-79 | the counter increments of two lists add up |
| FuzzTree.WellShapedBuildable | fuzzer.py:78-81 | on every list parseTLV returns, a TLV entry always has a previous child to repoint |
| FuzzTree.FoldConcat | fuzzer.py:70-81 | the loop over `a + b` is the loop over `a` then the loop over `b` from the counter `a` leaves |
| FuzzTree.TripleFields | fuzzer.py:71-81 | a triple gives Bytes `Tag m`, Size `Length m`, then the value's field. The Size points at `Value m` for a primitive value, at `TLV (m+1)` for a constructed one |
| FuzzTree.FoldMirrors | fuzzer.py:70-84 | one primitive per entry, in order, of the entry's kind, holding its bytes and the source's constants; nested lists become nested blocks |
| FuzzTree.RepointMirrors | fuzzer.py:80 | repointing the last length field keeps every field of the entry kind and contents it had |
| FuzzTree.TripleLinked | fuzzer.py:73-81 | the length field of a triple names the field right after it, and the nested block is linked whenever its own children are |
| FuzzTree.FoldLinked | fuzzer.py:73-81 | in a tree built from a parsed list, every Size field names the field right after it, at every depth |
| FuzzTree.TripleNames | fuzzer.py:71-81 | the names of one triple are distinct and lie in the counter range the triple uses |
| FuzzTree.FoldNames | fuzzer.py:70-81 | the children's names are pairwise distinct, within the counter range of the call |
| FuzzTree.SetupNames | fuzzer.py:66-84 | no two primitives of one call share a name; the block is named `"TLV" + n` |
| FuzzTree.DistinctRendered | fuzzer.py:72-83 | distinct names are distinct strings |
| FuzzTree.SuccessiveCalls | fuzzer.py:65-84 | two trees built one after another share at most the block name `"TLV" + k`, `k` being the counter between them |
| FuzzTree.BlockNameReuse | fuzzer.py:78-83 | that shared name does occur, for a packet ending in an empty constructed value |
| FuzzTree.EmptyConstructedParse | fuzzer.py:23-50 | bytes `A0 00` parse to a constructed element with an empty nested list |
| BitFlip.Unpack | POC.py:14-15 | a byte string gives eight bits per byte |
| BitFlip.UnpackAt | POC.py:14-15 | bit `i` of the array is bit `i % 8`, from the top, of byte `i / 8` |
| BitFlip.Pack | POC.py:17 | `tobytes` gives one byte per eight bits, a last partial byte counting as a whole one |
| BitFlip.PackAt | POC.py:17 | byte `i` of `tobytes` is bits `8i..8i+7` read most significant first, with zero bits padding a last partial byte |
| BitFlip.PackLength | POC.py:17 | whole bytes of bits convert to that many bytes |
| BitFlip.PackUnpack | POC.py:14-17 | bytes to bits and back is the identity |
| BitFlip.UnpackPack | POC.py:14-17 | whole bytes of bits to bytes and back is the identity |
| BitFlip.FlipBit | POC.py:13-17 | flipBit preserves the length |
| BitFlip.FlipBitBits | POC.py:16 | flipBit inverts bit `ind` of the bit array and nothing else |
| BitFlip.FlipBitByte | POC.py:13-17 | flipBit changes byte `ind / 8` only, by flipping its bit `ind % 8` from the top |
| BitFlip.FlipByteValue | POC.py:16 | that flip adds or subtracts `2^(7 - ind % 8)`, as XOR with `0x80 >> (ind % 8)` does |
| BitFlip.ByteBits | POC.py:15-17 | a byte's eight bits read back give the byte |
| BitFlip.FromBitsFlip | POC.py:16 | inverting one position of a bit string moves its value by that position's weight |
| BitFlip.FlipBitInvolution | POC.py:13-17 | flipping the same bit twice restores the input |
| BitFlip.FlipBitCommute | POC.py:13-17 | flips at two indices commute |
| BitFlip.FlipAll | POC.py:28-29 | flipping a list of bits one after another preserves the length |
| BitFlip.Dedup | POC.py:21-26 | every target kept comes from the draws |
| BitFlip.DedupDistinct | POC.py:24-26 | the targets kept are pairwise distinct |
| BitFlip.DedupPrefix | POC.py:21-26 | the targets kept from a prefix of the draws are a prefix of those kept from all of them |
| BitFlip.DedupSnoc | POC.py:24-26 | one more draw is kept unless it is a target already |
| BitFlip.DrawTargets | POC.py:21-26 | the drawing loop keeps the first `amount` distinct draws, in order |
| BitFlip.Mutate | POC.py:19-31 | mutate flips the `amount` targets; the result has the same length and Hamming distance `amount` from the input; `amount == 0` returns `el` unchanged |
| BitFlip.MutateTargets | POC.py:21-26 | the targets are `amount` distinct positions inside the bit array |
| BitFlip.FlipAllBits | POC.py:28-29 | after flipping distinct positions, a bit differs from the input exactly when it is one of them |
| BitFlip.MutateDistance | POC.py:19-31 | flipping distinct positions gives Hamming distance equal to their number |
| BitFlip.MutateNeedsRoom | POC.py:22-25 | `amount` distinct draws exist only when `amount <= 8 * len(el)`, and none when `el` is empty |

## Left out

- The rest of the repository is not part of this model:
  - the C test client, `replay.py` and `tester.py`;
  - `packetToBytes`, `splitMMS`, `getName`, `ping`, `genTraffic` and `main` of
    `fuzzer.py`;
  - the COTP handshake constants;
  - the top-level send loop of `POC.py`.
  All of these are packet capture, network I/O or process control.
- The `print` calls inside `parseTLV` are left out, being output only.
- What boofuzz does with the primitives (rendering, mutation, `Request` and session
  handling) is not modelled. A `Field` records only the arguments the fuzzer passes.
- Names are a stem and a counter (`FuzzTree.Name`). `FuzzTree.Render` gives the string
  the source builds, and `FuzzTree.RenderInjective` shows that nothing is lost.
- `>> k` and `& (2^w - 1)` are written as division by `2^k` and remainder modulo `2^w`.
  The two agree on the non-negative integers that `bytes` hold; negative arguments are
  not modelled.
- Tlv.ParseTLV: requires `Parsable(block)`. On other buffers the source does not return.
  Either it raises IndexError (no byte is left for the length), or the tag does not
  end inside the buffer. `Tlv.ContinuationEndNone` characterises such tags; for them
  the tag loop never stops, except when the first tag byte is the last byte and has
  bit 7 clear, where IndexError is raised.
- Tlv.ReadTag and BitFlip.DrawTargets are the source's inner loops, written as separate
  methods. Their callers use only their contracts.
- FuzzTree.FieldTreeBuilder.SetupFuzzTLV: requires `Buildable(tlv)`, which says a TLV
  entry is never first. Otherwise `children[-1]` raises IndexError. Every list parseTLV
  returns is buildable (`FuzzTree.WellShapedBuildable`).
- FuzzTree.Repoint:
  - The source assigns `block_name` on the last child object in place; the model
    rebuilds the list with that field replaced. That child is reachable only from the
    list, so nothing else sees the change.
  - When the last child is not a Size, Python adds an attribute nobody reads; the model
    leaves it unchanged. Lists returned by parseTLV never cause this.
- BitFlip.FlipBit: requires `0 <= ind < 8 * len(a)`. Negative indices, which `bitarray`
  counts from the end, are not modelled. The zero padding `tobytes` gives a partial last
  byte (`BitFlip.PackAt`) never comes into play, because the array always holds whole
  bytes.
- BitFlip.Mutate:
  - The random source is the parameter `draws`.
  - It requires the stream to hold `amount` distinct values. When it does not, the
    source's drawing loop never ends (`BitFlip.MutateNeedsRoom`).
  - The empty-buffer case is modelled through the draws' range: `randint(0, -1)` raises
    ValueError, so an empty `el` admits no draw at all.
