# Digital Invisible Ink Toolkit — a verified model of the embedding engine

The Digital Invisible Ink Toolkit hides a file in the low-order bits of an RGB
image and gets it back. Every algorithm uses the same protocol:

- a capacity check (`willMessageFit`);
- a 32-bit length header, written least significant bit first;
- the message bits, most significant bit first within each byte;
- on decode, the header read back, reversed, and refused with
  `NoMessageException` when the size it gives is implausible.

The algorithms differ only in how they pick the address of each bit. An
address is a pixel, a colour layer and a bit position.

This project models that engine in Dafny, file by file, and proves what each
part promises. The main results:

- decode gives back the file encode hid, for a message encoded from its
  first bit, under these conditions:
  - the message size and the image's address count fit a Java `int`
    (8·size + 50 < 2^31, and W·H·24 < 2^31 or the count of addressable bits
    below 2^31);
  - HideSeek and BattleSteg: encode succeeds. Their redraw loops are bounded
    here and can report `Hang`; BattleSteg's ship generation can also fail;
  - BlindHide and FilterFirst: the message fits, and then encode is proved
    to succeed;
  - DynamicFilterFirst: the message fits and the pixel scores are untied,
    or the ranking uses the comparator's test. With the code's strict score
    test, decode can miss the header when scores tie (see "## Findings");
- the addresses an algorithm picks never collide;
- the filters' scores ignore the bits embedding writes;
- outputSimulation shows exactly the pixels encode would touch.

| file | models |
|---|---|
| basics.dfy, bits.dfy | results and errors (one per Java exception, plus `Crash` and `Hang`); bit sequences; Java `int` wrap-around |
| raster.dfy | a `BufferedImage` as a value: width, height, type and rows of 32-bit ARGB pixels; `setRGB` and `setPixelBit` |
| stego_image.dfy | `StegoImage`: `getPixelBit`, `getLayerCount` and the null check of the constructor |
| insertable_message.dfy, retrieved_message.dfy | `InsertableMessage` and `RetrievedMessage` as classes over the file's bytes |
| protocol.dfy | the shared protocol: header bits, embedded bits, `willMessageFit`, decode's size check, writing and reading bits at a run of shots |
| simulation.dfy | outputSimulation's blacking out and `decreaseDarkness` |
| java_random.dfy | `java.util.Random`, the 48-bit linear congruential generator documented in the Java SE API: `next`, `nextInt(bound)` with its rejection loop, `nextBoolean` |
| prandom.dfy | `PRandom`: `getShot`, `getRangedShot`, `setLast` |
| filtered_pixel.dfy, fp_comparator.dfy | `FilteredPixel`, its `toString`, and `FPComparator`'s total order; `Arrays.sort` as the sorted permutation |
| filters.dfy | the `Laplace` and `Sobel` filters: byte mask, masked colours, getValue |
| blind_hide.dfy, hide_seek.dfy, filter_first.dfy, dynamic_filter_first.dfy, bp_random.dfy, battle_steg.dfy | the five algorithms. Each has a specification function per operation, lemmas about those functions, and a class whose methods follow the Java loops and are proved equal to the functions. `BPRandom` (bp_random.dfy) is BattleSteg's shot generator. |
| quick_sort.dfy | `QuickSort` on an `array2<int>` whose rows are the Java rows, sorted by row 0 in place. `insertionSort` is modelled twice: as written, on rows that are objects, and corrected. |

Java's `Filter`, `Filterable` and `StegoAlgorithm` interfaces have no
behaviour. The two filters are one `Filter` class with a `FilterKind`
(Laplace or Sobel). Each algorithm is its own class.

`DynamicFilterFirst` takes one constructor parameter that the Java class does
not have, a `Rule`, which picks the test its top-K scan uses:

- `ByScore` is the code as written. A pixel replaces the kept minimum only
  when its score is strictly greater.
- `ByComparator` orders pixels by `FPComparator`, which breaks ties by position.

Both are proved about. The Findings section explains why the second exists.

Seeds, the clock (`System.currentTimeMillis`) and file contents are
parameters. Where Java throws or exits, the model returns a `Failure` naming
the exception.

## Model

| member | source | states |
|---|---|---|
| Basics.I32 | invisibleinktoolkit/algorithms/HideSeek.java:343 | Java `int` arithmetic: the result is the value congruent to the argument modulo 2^32 in [-2^31, 2^31), and an argument already in range is its own result |
| Basics.JavaAbs | invisibleinktoolkit/util/PRandom.java:75 | `Math.abs` on an int is the absolute value, except that -2^31 stays -2^31 |
| Basics.JavaRem | invisibleinktoolkit/util/PRandom.java:110 | Java's `%` truncates: the remainder is smaller than the divisor in magnitude, takes the dividend's sign and differs from the dividend by a multiple of the divisor, which fixes it uniquely |
| Bits.MessageBits | invisibleinktoolkit/stego/InsertableMessage.java:77-97 | the bit stream of a file is 8 bits per byte, each byte most significant bit first (MessageBitAt) |
| Bits.MessageBitAt | invisibleinktoolkit/stego/InsertableMessage.java:83 | bit 8i+k of the stream is bit k, counted from the top, of byte i |
| Bits.Pack | invisibleinktoolkit/stego/RetrievedMessage.java:81-86 | groups a bit stream into bytes, most significant bit first; a last partial group is padded with zero low bits; the length is the number of bits over 8, rounded up |
| Bits.PackMessage | invisibleinktoolkit/stego/RetrievedMessage.java:71-123 | packing the bit stream of a file gives the file back: writing bytes out bit by bit and reading them back in is the identity |
| Bits.PackAppend | invisibleinktoolkit/stego/RetrievedMessage.java:85-86 | packing whole bytes and then a tail is packing the two separately and concatenating |
| Raster.LayerPos | invisibleinktoolkit/stego/StegoImage.java:130-131 | the bit `layer * 8 + bitpos` names, below 32 as a Java shift takes it, and below 24 for a colour layer |
| Raster.LayerPosInjective | invisibleinktoolkit/stego/StegoImage.java:130 | distinct (layer, bit) pairs of the colour layers name distinct bits of a pixel |
| Raster.SetPixelBit | invisibleinktoolkit/algorithms/HideSeek.java:169-173 | `setPixelBit`: the addressed bit of the pixel takes the new value (SetBitSetsOwn) and nothing else changes (SetPixelBitOtherBit, SetPixelBitOtherPixel) |
| Raster.SetBitSetsOwn | invisibleinktoolkit/algorithms/HideSeek.java:169-173 | after setting a bit, that bit has the value written |
| Raster.SetPixelBitOtherBit | invisibleinktoolkit/algorithms/HideSeek.java:169-173 | setting one bit leaves every other bit of the same pixel unchanged |
| Raster.SetPixelBitOtherPixel | invisibleinktoolkit/algorithms/HideSeek.java:169-173 | setting a bit leaves every other pixel unchanged |
| Raster.SetPixelBitOutsideMask | invisibleinktoolkit/algorithms/FilterFirst.java:254-329 | a bit written outside a mask leaves the pixel's masked part unchanged |
| StegoImage.NewStegoImage | invisibleinktoolkit/stego/StegoImage.java:53-61 | the constructor fails exactly on a null image, and otherwise wraps that image |
| StegoImage.GetLayerCount | invisibleinktoolkit/stego/StegoImage.java:94-108 | 0 exactly for binary images, 1 exactly for the 8-bit indexed and grey types, and 3 for every other type |
| StegoImage.GetPixelBit | invisibleinktoolkit/stego/StegoImage.java:129-133 | succeeds exactly inside the image, returns 0 or 1, and 1 exactly when bit `layer * 8 + bitpos` of the pixel word is set |
| StegoImage.GetAfterSet | invisibleinktoolkit/stego/StegoImage.java:129-133 | reading a bit just written with setPixelBit gives that bit back |
| StegoImage.GetAfterSetOther | invisibleinktoolkit/stego/StegoImage.java:129-133 | writing one bit does not change what any other address reads |
| StegoImage.PixelBitIgnoresAlpha | invisibleinktoolkit/stego/StegoImage.java:129-133 | the bits of colour layers 0..2 do not depend on the alpha byte |
| Protocol.HeaderBits | invisibleinktoolkit/algorithms/HideSeek.java:152-184 | the 32 header bits encode writes for a message size; bit i is `(size >> i) & 1` (HeaderBitAt) |
| Protocol.HeaderBitAt | invisibleinktoolkit/algorithms/HideSeek.java:166 | header bit i is bit i of the int size |
| Protocol.HeaderRoundTrip | invisibleinktoolkit/algorithms/HideSeek.java:262-286 | decoding the header gives back the int that encode wrote |
| Protocol.HeaderBitsOfValue | invisibleinktoolkit/algorithms/HideSeek.java:262-286 | any 32 bits are the header of the value they decode to, so distinct headers decode to distinct sizes |
| Protocol.ReadSizeBits | invisibleinktoolkit/algorithms/HideSeek.java:277 | the loop `size = size << 1 \| bit` over 32 bits holds the bits read, most significant first, modulo 2^32 |
| Protocol.ReverseHeader | invisibleinktoolkit/algorithms/HideSeek.java:283-286 | the reversal loop yields the int whose bit i is the i-th bit read |
| Protocol.EncodedBits | invisibleinktoolkit/algorithms/HideSeek.java:152-215 | what encode embeds: the 32 header bits for the message size, then the message bits not yet delivered (EncodedHeaderBit, EncodedMessageBit) |
| Protocol.EncodedHeaderBit | invisibleinktoolkit/algorithms/HideSeek.java:166 | the first 32 embedded bits are the bits of the message size |
| Protocol.EncodedMessageBit | invisibleinktoolkit/algorithms/HideSeek.java:187-194 | after the header come the message bits, from the first one not yet delivered |
| Protocol.NextEncodedBit | invisibleinktoolkit/algorithms/HideSeek.java:194 | `message.nextBit()` in encode's loop returns the next embedded bit after the header and advances the stream by one |
| Protocol.WillMessageFitMeaning | invisibleinktoolkit/algorithms/HideSeek.java:332-346 | without overflow, the fit test is exactly 8 * size + 50 <= W * H * layers * bits-per-pixel |
| Protocol.FittingLengthIsPlausible | invisibleinktoolkit/algorithms/HideSeek.java:288-296 | a message that passes the fit test passes decode's size check, so decode reads a body of 8 * size bits |
| Protocol.WriteBits | invisibleinktoolkit/algorithms/HideSeek.java:155-215 | setting one bit per shot succeeds exactly when every shot is inside the image, and keeps the image's size and type |
| Protocol.ReadBits | invisibleinktoolkit/algorithms/HideSeek.java:262-317 | reading one bit per shot succeeds exactly when every shot is inside the image, with one bit per shot |
| Protocol.ReadAfterWrite | invisibleinktoolkit/algorithms/HideSeek.java:155-317 | bits written at distinct in-bounds addresses are read back unchanged from those addresses |
| Protocol.ReadAfterWriteAt | invisibleinktoolkit/algorithms/HideSeek.java:155-317 | after writes to distinct addresses, each address reads the bit written there |
| Protocol.WriteThenReadParts | invisibleinktoolkit/algorithms/HideSeek.java:155-317 | header and body written at distinct in-bounds shots are read back: the header from the header's shots, the body from the body's shots |
| Protocol.WriteBitsKeepsMask | invisibleinktoolkit/algorithms/FilterFirst.java:254-329 | writes that avoid the bits of a mask leave every pixel's masked part unchanged |
| Simulation.DecreaseDarkness | invisibleinktoolkit/algorithms/HideSeek.java:449-451 | `colour << 1 \| 0x0f0f0f0f` always has the low four bits of every byte set (LightenedIsLit: never black) |
| Simulation.LightenedIsLit | invisibleinktoolkit/algorithms/HideSeek.java:449-451 | a lightened pixel is never black |
| Simulation.BlackOut | invisibleinktoolkit/algorithms/HideSeek.java:394-402 | the nested loops paint the whole image black (BlackenIsBlack) and keep its size and type |
| Simulation.BlackenIsBlack | invisibleinktoolkit/algorithms/HideSeek.java:394-402 | every pixel of the blackened image is 0 |
| Simulation.BlackenBounds | invisibleinktoolkit/algorithms/HideSeek.java:394-402 | the blacked-out image has the cover's size, so a shot lies inside one exactly when it lies inside the other |
| Simulation.Mark | invisibleinktoolkit/algorithms/HideSeek.java:405-434 | lightening the pixel of each shot succeeds exactly when every shot is inside the image |
| Simulation.MarkHits | invisibleinktoolkit/algorithms/HideSeek.java:394-434 | starting from black, a pixel ends up non-black exactly when some shot hit it |
| Simulation.WriteBitsOutsideHits | invisibleinktoolkit/algorithms/HideSeek.java:155-215 | writing bits leaves every pixel no shot hits as it was |
| JavaRandom.Random.constructor | invisibleinktoolkit/util/PRandom.java:59 | `new Random(seed)`: the state is the seed scrambled with 0x5DEECE66D, modulo 2^48 |
| JavaRandom.Random.Next | invisibleinktoolkit/util/PRandom.java:75 | `next(bits)`: one step of the linear congruential generator, and the top `bits` bits of the new state, below 2^bits |
| JavaRandom.NextIntSpec | invisibleinktoolkit/util/PRandom.java:75 | `nextInt(bound)`: a non-positive bound, and only such a bound, is an IllegalArgumentException; otherwise the value lies in [0, bound) |
| JavaRandom.AcceptsMeaning | invisibleinktoolkit/util/PRandom.java:75 | the rejection test keeps a draw exactly when it lies below the largest multiple of the bound that fits in 31 bits |
| JavaRandom.Random.NextInt | invisibleinktoolkit/util/PRandom.java:75 | the method's draw and new state are those of NextIntSpec; an IllegalArgumentException leaves the state alone; for a positive bound the only failure is the redraw bound |
| JavaRandom.Random.Redraw | invisibleinktoolkit/util/PRandom.java:75 | the rejection loop draws again until a draw is accepted, as the specification function's recursion does |
| JavaRandom.NextBooleanSpec | invisibleinktoolkit/algorithms/HideSeek.java:182 | `nextBoolean()` is true exactly when the new state lies in the upper half of the states |
| JavaRandom.Random.NextBoolean | invisibleinktoolkit/algorithms/HideSeek.java:182 | the method's result and new state are those of NextBooleanSpec |
| PRandom.NewGenerator | invisibleinktoolkit/util/PRandom.java:49-60 | a new generator has no last shot, and its random state is the scrambled seed |
| PRandom.AbsDraw | invisibleinktoolkit/util/PRandom.java:75 | `Math.abs(nextInt(bound))` fails with IllegalArgument exactly for a non-positive bound, and otherwise lies in [0, bound) |
| PRandom.BitPosInRange | invisibleinktoolkit/util/PRandom.java:82-83 | when start <= end the bit position `start + nextInt(end - start + 1)` lies in [start, end] |
| PRandom.GetShotSpec | invisibleinktoolkit/util/PRandom.java:73-89 | getShot draws x, y, layer and bit position inside the width, height, layer count and bit range; the shot becomes the last shot; a zero dimension throws |
| PRandom.PRandom.constructor | invisibleinktoolkit/util/PRandom.java:49-60 | the object's state is NewGenerator of its arguments, with a fresh random generator |
| PRandom.PRandom.GetShot | invisibleinktoolkit/util/PRandom.java:73-89 | the method's shot and new state are those of GetShotSpec |
| PRandom.PRandom.AbsNextInt | invisibleinktoolkit/util/PRandom.java:75 | the method's draw and new state are those of AbsDraw |
| PRandom.GetRangedShotSpec | invisibleinktoolkit/util/PRandom.java:102-141 | getRangedShot fails with a NullPointerException exactly without a last shot; a zero-width reach throws; a shot lands within the reach around the last shot, inside the layer count and bit range; the last shot is kept |
| PRandom.PRandom.Reaches | invisibleinktoolkit/util/PRandom.java:106-122 | the four reaches around the last shot are `range % distance`, or 0 when the shot is on that edge |
| PRandom.ReachOf | invisibleinktoolkit/util/PRandom.java:107-110 | one reach is 0 without room and otherwise the range modulo the room |
| PRandom.PRandom.GetRangedShot | invisibleinktoolkit/util/PRandom.java:102-141 | the method's shot and new state are those of GetRangedShotSpec |
| PRandom.OffsetNear | invisibleinktoolkit/util/PRandom.java:130-131 | a ranged coordinate, for a non-negative range, lands within the reach on either side of the last shot |
| PRandom.RangedShotWithoutRoom | invisibleinktoolkit/util/PRandom.java:107-130 | range 2 around column 2 of an image 4 wide leaves no reach on either side, so `nextInt(0)` throws |
| PRandom.SetLastSpec | invisibleinktoolkit/util/PRandom.java:149-151 | setLast changes only the last shot |
| PRandom.PRandom.SetLast | invisibleinktoolkit/util/PRandom.java:149-151 | the method's new state is SetLastSpec's |
| InsertableMessage.InsertableMessage.Open | invisibleinktoolkit/stego/InsertableMessage.java:51-66 | an empty file is refused with an IOException; otherwise no bit has been delivered and the stream is not finished |
| InsertableMessage.InsertableMessage.constructor | invisibleinktoolkit/stego/InsertableMessage.java:51-66 | opening a non-empty file buffers its first byte with eight bits to go: nothing delivered yet and not finished |
| InsertableMessage.InsertableMessage.NextBit | invisibleinktoolkit/stego/InsertableMessage.java:77-97 | after the stream finished, an IOException and no change; otherwise the next bit of the file's bit stream, and the stream finishes exactly after the last bit |
| InsertableMessage.InsertableMessage.GetSize | invisibleinktoolkit/stego/InsertableMessage.java:116-121 | the size of the file in bytes |
| RetrievedMessage.RetrievedMessage.constructor | invisibleinktoolkit/stego/RetrievedMessage.java:48-56 | a new message has received and written nothing and is not finished |
| RetrievedMessage.RetrievedMessage.SetNext | invisibleinktoolkit/stego/RetrievedMessage.java:71-88 | after close, an IOException and no change; otherwise the bit is appended to what was received |
| RetrievedMessage.RetrievedMessage.WriteFullByte | invisibleinktoolkit/stego/RetrievedMessage.java:84-86 | a full buffer is written out as the byte its eight bits spell, and the bits received are unchanged |
| RetrievedMessage.RetrievedMessage.WriteBuffer | invisibleinktoolkit/stego/RetrievedMessage.java:98-102 | writes the low byte of the buffer and starts a new byte |
| RetrievedMessage.RetrievedMessage.BufferBound | invisibleinktoolkit/stego/RetrievedMessage.java:81 | the buffer always holds fewer than eight bits, so it fits in a byte |
| RetrievedMessage.RetrievedMessage.Close | invisibleinktoolkit/stego/RetrievedMessage.java:112-123 | a partial byte is shifted to the top and written; the output is then every received bit packed into bytes |
| RetrievedMessage.FlushPartial | invisibleinktoolkit/stego/RetrievedMessage.java:114-118 | a partial byte shifted up by `8 - bitCount` is the byte of its bits padded with zero low bits |
| FilteredPixels.ToStringIdentifiesPosition | invisibleinktoolkit/filters/FilteredPixel.java:83-85 | two pixels print the same exactly when they sit at the same position, whatever their filter values |
| FilteredPixels.DecimalRoundTrip | invisibleinktoolkit/filters/FilteredPixel.java:84 | the decimal rendering of an int identifies it |
| FPComparator.Compare | invisibleinktoolkit/filters/FPComparator.java:50-76 | 0 exactly for identical records, negative exactly when the first comes first in (value, x, y) order, positive exactly when the second does |
| FPComparator.Equals | invisibleinktoolkit/filters/FPComparator.java:87-95 | equals holds exactly when compare returns 0 |
| FPComparator.CompareAntisymmetric | invisibleinktoolkit/filters/FPComparator.java:50-76 | swapping the arguments flips the sign |
| FPComparator.CompareTransitive | invisibleinktoolkit/filters/FPComparator.java:50-76 | the order compare defines is transitive |
| FPComparator.CompareTotal | invisibleinktoolkit/filters/FPComparator.java:50-76 | any two different records are ordered one way or the other |
| FPComparator.SortedUnique | invisibleinktoolkit/filters/FPComparator.java:50-76 | two sorted sequences with the same elements are equal, because the comparator ties no two different records |
| FPComparator.SortPixels | invisibleinktoolkit/algorithms/FilterFirst.java:120 | `Arrays.sort(fparray, new FPComparator())` leaves the array the sorted permutation of its old contents (SortSeqSorted, IsSortSeq) |
| FPComparator.SortSeqSorted | invisibleinktoolkit/algorithms/FilterFirst.java:120 | the sorted permutation is sorted |
| FPComparator.IsSortSeq | invisibleinktoolkit/algorithms/FilterFirst.java:120 | any sorted arrangement of the same elements is that sorted permutation |
| FPComparator.SinkLast | invisibleinktoolkit/algorithms/FilterFirst.java:120 | one insertion pass extends the sorted prefix by one element and permutes the array |
| Filters.ByteMask | invisibleinktoolkit/filters/Laplace.java:183-197 | the byte whose bit k, for k in 0..7, is set exactly when start <= k <= end (ByteMaskBit) |
| Filters.ByteMaskBit | invisibleinktoolkit/filters/Laplace.java:183-197 | the mask keeps bit j exactly when j lies in the filter's range |
| Filters.LoopsMakeByteMask | invisibleinktoolkit/filters/Laplace.java:184-195 | the first loop (with its `(byte)` cast) and the reversing second loop together build the range mask |
| Filters.Filter.GetByteMask | invisibleinktoolkit/filters/Sobel.java:229-243 | getByteMask returns the range mask of the filter's current range |
| Filters.ShiftInRange | invisibleinktoolkit/filters/Laplace.java:185-192 | the first loop shifts in one bit per position 0..7 |
| Filters.ReverseLowByte | invisibleinktoolkit/filters/Laplace.java:193-195 | the second loop reads the low eight bits back in reverse |
| Filters.Channel | invisibleinktoolkit/filters/Laplace.java:149-171 | getRed, getGreen and getBlue: the masked colour byte, below 256 |
| Filters.Filter.GetColour | invisibleinktoolkit/filters/Laplace.java:149-171 | the three masked colours of a pixel under the filter's current mask |
| Filters.LaplaceValue | invisibleinktoolkit/filters/Laplace.java:97-140 | fails exactly without an image or outside it; otherwise the sum over the colours of the absolute difference between pixcount times the pixel and its existing neighbours |
| Filters.PixCount | invisibleinktoolkit/filters/Laplace.java:107-122 | pixcount is four less one for each image edge the pixel touches |
| Filters.LaplaceBound | invisibleinktoolkit/filters/Laplace.java:125-138 | a Laplace value is at most 3 * 4 * 255, so it never overflows |
| Filters.SobelValue | invisibleinktoolkit/filters/Sobel.java:95-187 | fails without an image; 0 on the first and last row and column; otherwise fails exactly outside the image, and is the sum over the colours of the integer gradient magnitude |
| Filters.ISqrt | invisibleinktoolkit/filters/Sobel.java:144 | `(int)Math.sqrt(n)` is the integer square root: r * r <= n < (r + 1) * (r + 1) |
| Filters.FilterValue | invisibleinktoolkit/filters/Filter.java:45 | getValue of a filter of either kind: fails without an image, succeeds inside the image, never negative |
| Filters.Filter.GetValue | invisibleinktoolkit/filters/Laplace.java:97-140 | the method returns FilterValue under the filter's current mask |
| Filters.Filter.Default | invisibleinktoolkit/filters/Laplace.java:45-47 | `new Laplace()` / `new Sobel()`: no image and the range 1..8 |
| Filters.Filter.WithRange | invisibleinktoolkit/filters/Laplace.java:59-61 | the range constructor: no image and the given range |
| Filters.Filter.constructor | invisibleinktoolkit/filters/Laplace.java:74-78 | the full constructor: the given image and range |
| Filters.Filter.SetImage | invisibleinktoolkit/filters/Laplace.java:204-206 | setImage changes the image and nothing else |
| Filters.Filter.SetStartRange | invisibleinktoolkit/filters/Laplace.java:213-215 | setStartRange changes the start of the range and nothing else |
| Filters.Filter.SetEndRange | invisibleinktoolkit/filters/Laplace.java:222-224 | setEndRange changes the end of the range and nothing else |
| Filters.FilterSeesOnlyMask | invisibleinktoolkit/filters/Laplace.java:149-171 | a filter's value depends only on the masked bits: images that agree there have the same value everywhere |
| Filters.WritesKeepFilterValue | invisibleinktoolkit/algorithms/FilterFirst.java:254-401 | writing bits in layers 0..2 at positions up to `end` leaves every value of a filter with range end+1..8 as it was, so decode ranks the pixels as encode did |
| Filters.ShotOutsideFilterMask | invisibleinktoolkit/algorithms/FilterFirst.java:79-80 | a bit at position <= end of a colour layer lies outside the mask of the range end+1..8 |
| Filters.FlatFiltersToZero | invisibleinktoolkit/filters/Laplace.java:97-140 | on an image of one colour both filters give 0 everywhere |
| BlindHide.ShotInRange | invisibleinktoolkit/algorithms/BlindHide.java:262-275 | below W * H * 3 * bpp, call k of getShot is not null, lies in the image, uses a colour layer 0..2 and a bit position below bpp (the start bit is not added), and its fields spell k in mixed radix |
| BlindHide.ShotFields | invisibleinktoolkit/algorithms/BlindHide.java:267-272 | the fields of a non-null shot, with Java's subtract-then-divide simplified to quotient and remainder |
| BlindHide.ShotsInjective | invisibleinktoolkit/algorithms/BlindHide.java:262-275 | below the limit no two calls of getShot name the same bit of the image |
| BlindHide.ShotsUsable | invisibleinktoolkit/algorithms/BlindHide.java:262-275 | the first n shots, n within the limit, are not null, lie in the image and are pairwise distinct |
| BlindHide.BlindHide.GetShot | invisibleinktoolkit/algorithms/BlindHide.java:262-275 | the method returns the shot of the current counter, and the counter advances exactly when the shot is not null |
| BlindHide.BlindHide.New | invisibleinktoolkit/algorithms/BlindHide.java:63-86 | the constructor refuses, with IllegalArgument, exactly a start or end outside 0..6 or a start above the end; otherwise it keeps the range with the counter at 0 |
| BlindHide.BlindHide.Default | invisibleinktoolkit/algorithms/BlindHide.java:94-96 | the default constructor uses the range 0..0 |
| BlindHide.BlindHide.constructor | invisibleinktoolkit/algorithms/BlindHide.java:82-84 | the fields after a valid range: the range, and the counter at 0 |
| BlindHide.BlindHide.Encode | invisibleinktoolkit/algorithms/BlindHide.java:112-185 | the method's result is EncodeSpec: IllegalArgument exactly when the message does not fit (EncodeRefused), a crash on a null or outside shot (EncodeCrash), otherwise the cover with the encoded bits written at successive shots (EncodeSpecIs); a refused message is left unchanged, and on success the message has delivered every bit of the file |
| BlindHide.BlindHide.PutHeaderBit | invisibleinktoolkit/algorithms/BlindHide.java:131-155 | pass i of the header loop writes bit i of the size at the next shot, or fails exactly as encode does |
| BlindHide.BlindHide.PutMessageBit | invisibleinktoolkit/algorithms/BlindHide.java:158-180 | one pass of the message loop takes the next message bit and writes it at the next shot, or fails exactly as encode does |
| BlindHide.BlindHide.Put | invisibleinktoolkit/algorithms/BlindHide.java:139-144 | a null shot or a pixel outside the image is a crash of encode; otherwise the bit is written at the shot |
| BlindHide.EncodeRefused | invisibleinktoolkit/algorithms/BlindHide.java:118-121 | a message that does not fit makes encode throw IllegalArgument |
| BlindHide.EncodeCrash | invisibleinktoolkit/algorithms/BlindHide.java:133-144 | a null or outside shot among those encode needs makes encode fail |
| BlindHide.EncodeSpecIs | invisibleinktoolkit/algorithms/BlindHide.java:112-185 | a fitting message written at successive in-bounds shots is encode's result |
| BlindHide.BlindHide.Decode | invisibleinktoolkit/algorithms/BlindHide.java:197-252 | the method's result is DecodeSpec: a crash on a null or outside shot, NoMessage for an implausible size, otherwise the body bits packed into bytes (DecodeSpecIs) |
| BlindHide.BlindHide.ReadSize | invisibleinktoolkit/algorithms/BlindHide.java:205-222 | the first loop and the reversal read the header from the first 32 shots and yield its value |
| BlindHide.BlindHide.ReadBody | invisibleinktoolkit/algorithms/BlindHide.java:234-251 | the second loop reads `length` bits into a new message and closes it, giving decode's result |
| BlindHide.BlindHide.ReadBodyBit | invisibleinktoolkit/algorithms/BlindHide.java:237-248 | one pass of the second loop appends the bit at the next shot to the message, or fails as decode does |
| BlindHide.BlindHide.ReadNext | invisibleinktoolkit/algorithms/BlindHide.java:207-213 | the next shot and the bit at it, or a crash exactly when the shot is null or outside the image |
| BlindHide.DecodeHeaderCrash | invisibleinktoolkit/algorithms/BlindHide.java:205-216 | a null or outside header shot makes decode fail |
| BlindHide.DecodeNoMessage | invisibleinktoolkit/algorithms/BlindHide.java:225-232 | a size of 8 * size2 at or above the image space, or negative, makes decode throw NoMessageException |
| BlindHide.DecodeBodyCrash | invisibleinktoolkit/algorithms/BlindHide.java:237-248 | a null or outside body shot makes decode fail |
| BlindHide.DecodeSpecIs | invisibleinktoolkit/algorithms/BlindHide.java:197-252 | a plausible header followed by a body read at successive shots gives the body packed into bytes |
| BlindHide.EncodeDecode | invisibleinktoolkit/algorithms/BlindHide.java:112-252 | the round trip: a fitting message whose address count fits an int is encoded, and decoding the result gives the message back |
| BlindHide.EncodeWrites | invisibleinktoolkit/algorithms/BlindHide.java:112-185 | encoding a fitting message succeeds and the image then holds the header and message bits at the first shots |
| BlindHide.SpaceBound | invisibleinktoolkit/algorithms/BlindHide.java:286-300 | the fit test bounds the number of bits written by the number of addresses getShot can name |
| BlindHide.BlindHide.OutputSimulation | invisibleinktoolkit/algorithms/BlindHide.java:312-359 | the method's result is SimulationSpec: the blackened cover with the pixel of every shot encode would use lightened; a refused message is left unchanged, and on success the message has delivered every bit of the file |
| BlindHide.BlindHide.MarkNext | invisibleinktoolkit/algorithms/BlindHide.java:339-346 | one pass of either simulation loop lightens the pixel of the next shot, or fails as the simulation does |
| BlindHide.SimulationMatchesEncode | invisibleinktoolkit/algorithms/BlindHide.java:312-359 | the simulation fails exactly when encode does, with the same error |
| BlindHide.SimulationShowsShots | invisibleinktoolkit/algorithms/BlindHide.java:339-355 | in the simulation a pixel is lit exactly when one of encode's shots lands on it |
| BlindHide.SimulationRefused | invisibleinktoolkit/algorithms/BlindHide.java:318-321 | a message that does not fit makes the simulation throw IllegalArgument |
| BlindHide.SimulationCrash | invisibleinktoolkit/algorithms/BlindHide.java:339-352 | a null or outside shot makes the simulation fail |
| BlindHide.SimulationSpecIs | invisibleinktoolkit/algorithms/BlindHide.java:312-359 | marking successive in-bounds shots on the blackened cover is the simulation's result |
| HideSeek.Draw | invisibleinktoolkit/algorithms/HideSeek.java:157 | a drawn shot fits the generator's width, height, layer count and bit range; the generator refuses (IllegalArgument) only when one of its bounds is not positive |
| HideSeek.DrawIsGetShot | invisibleinktoolkit/util/PRandom.java:73-89 | the shot encode draws is exactly the generator's getShot |
| HideSeek.Resample | invisibleinktoolkit/algorithms/HideSeek.java:159-161 | the redraw loop ends on a shot whose bit is not yet used and that fits the generator |
| HideSeek.FreeShot | invisibleinktoolkit/algorithms/HideSeek.java:157-161 | a shot followed by the redraw loop gives a shot on an unused bit |
| HideSeek.NextShot | invisibleinktoolkit/algorithms/HideSeek.java:157-163 | one shot of encode's loops: on an unused bit, which is then marked in haveWritten and nothing else is |
| HideSeek.Shots | invisibleinktoolkit/algorithms/HideSeek.java:155-215 | n shots of a run, in the generator's bounds |
| HideSeek.ShotsFresh | invisibleinktoolkit/algorithms/HideSeek.java:155-215 | the shots of a run fit the generator, avoid every bit used before and never repeat a bit; afterwards exactly their bits are marked used |
| HideSeek.ShotsSplit | invisibleinktoolkit/algorithms/HideSeek.java:155-215 | the header loop and the message loop share one generator and one occupancy array: n = a + b shots are a shots and then b more |
| HideSeek.ShotsFailLonger | invisibleinktoolkit/algorithms/HideSeek.java:155-215 | a run that cannot make its k-th shot fails the same way for any longer run |
| HideSeek.DistinctSlotsDistinctAddresses | invisibleinktoolkit/algorithms/HideSeek.java:159-163 | shots on distinct entries of haveWritten name distinct bits of the image |
| HideSeek.StartPicker | invisibleinktoolkit/algorithms/HideSeek.java:124-146 | the generator of encode, decode and the simulation has the image's size, at most three layers and the bit range, and nothing is yet marked used |
| HideSeek.RunUsable | invisibleinktoolkit/algorithms/HideSeek.java:124-215 | the shots of a run from the start lie in the image and on pairwise distinct bits |
| HideSeek.EncodeSpec | invisibleinktoolkit/algorithms/HideSeek.java:115-220 | an encoded image has the cover's size and kind |
| HideSeek.EncodeRefused | invisibleinktoolkit/algorithms/HideSeek.java:137-140 | a message that does not fit makes encode throw IllegalArgument |
| HideSeek.EncodeShotFails | invisibleinktoolkit/algorithms/HideSeek.java:155-215 | a shot that cannot be made ends encode with that error |
| HideSeek.EncodeSpecIs | invisibleinktoolkit/algorithms/HideSeek.java:115-220 | a fitting message whose run of shots succeeds is written bit by bit at those shots, and that is encode's result |
| HideSeek.NoOverflow | invisibleinktoolkit/algorithms/HideSeek.java:332-346 | when W * H * 24 fits in an int, so do the products willMessageFit computes |
| HideSeek.EncodeOutcomes | invisibleinktoolkit/algorithms/HideSeek.java:115-220 | without int overflow, encode throws IllegalArgument if and only if the message does not fit, and its only other failure is the model's redraw bound |
| HideSeek.FitHasLayers | invisibleinktoolkit/algorithms/HideSeek.java:332-346 | a message that fits needs at least one colour layer |
| HideSeek.ShotsNeverRefused | invisibleinktoolkit/util/PRandom.java:73-89 | with positive bounds the generator never refuses, so a run can fail only by the redraw bound |
| HideSeek.FreeShotNeverRefused | invisibleinktoolkit/algorithms/HideSeek.java:157-161 | the same for one shot and its redraws |
| HideSeek.ResampleNeverRefused | invisibleinktoolkit/algorithms/HideSeek.java:159-161 | the same for the redraw loop |
| HideSeek.EncodeDecode | invisibleinktoolkit/algorithms/HideSeek.java:115-321 | the round trip: when nothing overflows and encode succeeds, decode with the same seed and bit range gives the message back |
| HideSeek.RoundTripUnlessHang | invisibleinktoolkit/algorithms/HideSeek.java:115-321 | a message that fits is encoded and decoded back unless the redraw bound is reached, the one other outcome |
| HideSeek.DecodeOfRun | invisibleinktoolkit/algorithms/HideSeek.java:232-321 | decoding the image a complete run of encode wrote gives the message |
| HideSeek.ReadBackRun | invisibleinktoolkit/algorithms/HideSeek.java:232-321 | decode rebuilds encode's generator and occupancy, so its header shots and body shots are encode's, and they read back the header and the message bits |
| HideSeek.RunParts | invisibleinktoolkit/algorithms/HideSeek.java:155-215 | a run from the start splits into 32 header shots and the body shots, all in the image and on distinct bits |
| HideSeek.HeaderReadAfterWrite | invisibleinktoolkit/algorithms/HideSeek.java:251-279 | writing bits keeps the image's size and layer count, so decode builds the generator encode did |
| HideSeek.ReadBackParts | invisibleinktoolkit/algorithms/HideSeek.java:155-317 | header and message bits written at a run's shots are read back from the same shots |
| HideSeek.LengthOfRun | invisibleinktoolkit/algorithms/HideSeek.java:288-296 | the header of a fitting message announces 8 * size bits and decode's plausibility check accepts it |
| HideSeek.SplitRun | invisibleinktoolkit/algorithms/HideSeek.java:155-215 | a run of a + b shots is a run of a followed by a run of b |
| HideSeek.ShotsPrefixSucceeds | invisibleinktoolkit/algorithms/HideSeek.java:155-215 | a successful run succeeded at every earlier length |
| HideSeek.DecodeHeaderFails | invisibleinktoolkit/algorithms/HideSeek.java:262-279 | a header shot that cannot be made ends decode with that error |
| HideSeek.DecodeNoMessage | invisibleinktoolkit/algorithms/HideSeek.java:291-296 | a size of 8 * size2 that is negative or exceeds the image space makes decode throw NoMessageException |
| HideSeek.DecodeBodyFails | invisibleinktoolkit/algorithms/HideSeek.java:301-317 | a body shot that cannot be made ends decode with that error |
| HideSeek.DecodeSpecIs | invisibleinktoolkit/algorithms/HideSeek.java:232-321 | a plausible header followed by body bits read at a successful run gives those bits packed into bytes |
| HideSeek.SimulationSpec | invisibleinktoolkit/algorithms/HideSeek.java:358-440 | the simulation's image has the cover's size and kind |
| HideSeek.Lighten | invisibleinktoolkit/algorithms/HideSeek.java:394-436 | the blacked-out image with the shots' pixels lightened keeps the cover's size and kind |
| HideSeek.SimulationMatchesEncode | invisibleinktoolkit/algorithms/HideSeek.java:115-220 | the simulation succeeds exactly when encode does, and fails with encode's error |
| HideSeek.SimulationCoversEncode | invisibleinktoolkit/algorithms/HideSeek.java:358-440 | where encode succeeds, a pixel the simulation leaves black is one encode does not change |
| HideSeek.BothOfRun | invisibleinktoolkit/algorithms/HideSeek.java:358-440 | encode and the simulation use the same run of shots: encode writes the bits there, the simulation lightens those pixels |
| HideSeek.SimulationRefused | invisibleinktoolkit/algorithms/HideSeek.java:364-367 | a message that does not fit makes the simulation throw IllegalArgument |
| HideSeek.RunFailsAt | invisibleinktoolkit/algorithms/HideSeek.java:405-436 | a run whose k-th shot fails fails any longer run with that error |
| HideSeek.SimulationOfFailedRun | invisibleinktoolkit/algorithms/HideSeek.java:405-436 | a shot the simulation cannot make ends it with that error |
| HideSeek.SimulationSpecIs | invisibleinktoolkit/algorithms/HideSeek.java:358-440 | marking a successful run's shots on the blacked-out cover is the simulation's result |
| HideSeek.Clear | invisibleinktoolkit/algorithms/HideSeek.java:124-134 | after the clearing loops haveWritten holds false everywhere |
| HideSeek.DrawFree | invisibleinktoolkit/algorithms/HideSeek.java:157-161 | the draw-and-redraw code on the real generator and haveWritten gives FreeShot's shot and generator state |
| HideSeek.SkipTaken | invisibleinktoolkit/algorithms/HideSeek.java:159-161 | the redraw loop over haveWritten stops where HideSeek.Resample says, leaving the generator in Resample's final state, or fails with Resample's error |
| HideSeek.Redraw | invisibleinktoolkit/algorithms/HideSeek.java:159-161 | one pass of the redraw loop keeps Resample's outcome |
| HideSeek.MirrorsAt | invisibleinktoolkit/algorithms/HideSeek.java:159 | haveWritten at a shot holds exactly when its bit is used |
| HideSeek.ResampleRetry | invisibleinktoolkit/algorithms/HideSeek.java:159-161 | a shot on a used bit is redrawn and the loop continues from the new draw |
| HideSeek.GetShot | invisibleinktoolkit/util/PRandom.java:73-89 | the generator's getShot, as Draw states it |
| HideSeek.Take | invisibleinktoolkit/algorithms/HideSeek.java:157-163 | one shot of a run, drawn and marked in haveWritten, extends the run |
| HideSeek.Pick | invisibleinktoolkit/algorithms/HideSeek.java:157-161 | the next shot of a run, drawn and redrawn while its bit is taken |
| HideSeek.Claim | invisibleinktoolkit/algorithms/HideSeek.java:163 | marking a picked shot extends the run |
| HideSeek.MarkSlot | invisibleinktoolkit/algorithms/HideSeek.java:163 | setting haveWritten at a shot adds exactly that bit to the used ones |
| HideSeek.WrittenAll | invisibleinktoolkit/algorithms/HideSeek.java:155-215 | after the last bit encode has made the whole run and written every bit at its shot |
| HideSeek.WrittenNext | invisibleinktoolkit/algorithms/HideSeek.java:155-215 | a shot placed and its bit written keeps encode's loop invariant |
| HideSeek.WriteNext | invisibleinktoolkit/algorithms/HideSeek.java:166-173 | the next write is in bounds and extends the bits written so far by one |
| HideSeek.HideSeek.constructor | invisibleinktoolkit/algorithms/HideSeek.java:77-99 | the fields after a valid range |
| HideSeek.HideSeek.New | invisibleinktoolkit/algorithms/HideSeek.java:77-99 | the constructor throws IllegalArgument exactly for a start or end outside 0..7 or a start above the end, and otherwise keeps the range |
| HideSeek.HideSeek.Default | invisibleinktoolkit/algorithms/HideSeek.java:59-61 | the default constructor uses the bit range 0..0 |
| HideSeek.HideSeek.Encode | invisibleinktoolkit/algorithms/HideSeek.java:115-220 | the method's result is EncodeSpec of the cover and the message bits still to be delivered; a refused message is left unchanged, and on success the message has delivered every bit of the file |
| HideSeek.HideSeek.EncodeFitting | invisibleinktoolkit/algorithms/HideSeek.java:150-218 | once the message fits, the two loops give EncodeSpec |
| HideSeek.HideSeek.EncodeRun | invisibleinktoolkit/algorithms/HideSeek.java:155-215 | both loops make the generator's run of free shots, one per embedded bit, and write those bits at them; a failure is the error of the first shot the run could not make |
| HideSeek.HideSeek.EncodeHeader | invisibleinktoolkit/algorithms/HideSeek.java:155-184 | the header loop makes 32 shots and writes the size's bits, or fails with the error of the shot it could not make |
| HideSeek.HideSeek.PutHeaderBit | invisibleinktoolkit/algorithms/HideSeek.java:157-181 | pass i of the header loop extends the run by one free shot, marks it and writes bit i of the size there, or fails with that shot's error |
| HideSeek.HideSeek.EncodeBody | invisibleinktoolkit/algorithms/HideSeek.java:187-215 | the message loop extends the run by one shot per message bit still undelivered and writes those bits, or fails with the error of the next shot |
| HideSeek.HideSeek.PutMessageBit | invisibleinktoolkit/algorithms/HideSeek.java:189-213 | one pass of the message loop extends the run by one free shot, writes the next message bit there and uses that bit up, or fails with that shot's error |
| HideSeek.HideSeek.Decode | invisibleinktoolkit/algorithms/HideSeek.java:232-321 | the method's result is DecodeSpec of the image, seed and bit range |
| HideSeek.HideSeek.DecodeWith | invisibleinktoolkit/algorithms/HideSeek.java:258-321 | once the generator stands at the seed's start and haveWritten is all false, decode's result is DecodeSpec |
| HideSeek.HideSeek.ReadHeaderBits | invisibleinktoolkit/algorithms/HideSeek.java:262-286 | the header loop and the reversal give the size the header shots spell, or decode's error |
| HideSeek.HideSeek.ReadSizeBits | invisibleinktoolkit/algorithms/HideSeek.java:262-279 | the 32 header shots are a run of the generator, each marked in haveWritten, and the size is the Java int their bits spell, first bit most significant; otherwise the loop fails with the error of the run's next shot |
| HideSeek.HideSeek.ReadBody | invisibleinktoolkit/algorithms/HideSeek.java:288-320 | after the header, the size check and the body loop give decode's result, DecodeSpec |
| HideSeek.HideSeek.ReadNext | invisibleinktoolkit/algorithms/HideSeek.java:302-315 | one pass of either decode loop extends the run by the next free shot, marks it, and returns its bit, 0 or 1, appended to the bits read; or fails with that shot's error |
| HideSeek.HideSeek.ReadBodyBits | invisibleinktoolkit/algorithms/HideSeek.java:301-317 | the body loop passes the bits at `length` further shots to the retrieved message, or fails with the error of the shot it could not make |
| HideSeek.HideSeek.OutputSimulation | invisibleinktoolkit/algorithms/HideSeek.java:358-440 | the method's result is SimulationSpec of the cover and the message; a refused message is left unchanged, and on success the message has delivered every bit of the file |
| HideSeek.HideSeek.MarkRun | invisibleinktoolkit/algorithms/HideSeek.java:405-436 | both loops of the simulation lighten the pixels of the run's shots on the blacked-out cover |
| HideSeek.HideSeek.MarkedAll | invisibleinktoolkit/algorithms/HideSeek.java:405-436 | after the last shot the simulation has made the whole run and lightened each of its pixels |
| HideSeek.HideSeek.MarkHeader | invisibleinktoolkit/algorithms/HideSeek.java:405-419 | the simulation's first loop makes the 32 header shots and lightens their pixels |
| HideSeek.HideSeek.MarkBody | invisibleinktoolkit/algorithms/HideSeek.java:422-436 | the simulation's second loop extends the run by one shot per undelivered message bit and lightens their pixels, or fails with the error of the next shot |
| HideSeek.HideSeek.MarkNext | invisibleinktoolkit/algorithms/HideSeek.java:423-434 | one pass of either simulation loop extends the run by the next free shot, marks it and lightens its pixel, or fails with that shot's error |
| FilterFirst.EntryIs | invisibleinktoolkit/algorithms/FilterFirst.java:110-117 | generateList stores pixel (k / H, k % H) at index k, inside the image |
| FilterFirst.ScoresUpTo | invisibleinktoolkit/algorithms/FilterFirst.java:110-117 | the first n entries the loops store |
| FilterFirst.Scores | invisibleinktoolkit/algorithms/FilterFirst.java:108-117 | the unsorted array has W * H entries |
| FilterFirst.ScoresAt | invisibleinktoolkit/algorithms/FilterFirst.java:112-115 | entry k is the scored pixel stored at index k |
| FilterFirst.ColumnMajor | invisibleinktoolkit/algorithms/FilterFirst.java:112 | the index i * H + j lies in the array and gives back (i, j) |
| FilterFirst.ScoresPosition | invisibleinktoolkit/algorithms/FilterFirst.java:112-115 | entry k names pixel (k / H, k % H) |
| FilterFirst.ColumnMajorDistinct | invisibleinktoolkit/algorithms/FilterFirst.java:110-117 | the loops name every pixel of the image once |
| FilterFirst.RankingCoversImage | invisibleinktoolkit/algorithms/FilterFirst.java:102-122 | the sorted list holds each pixel of the image exactly once |
| FilterFirst.RankingSorted | invisibleinktoolkit/algorithms/FilterFirst.java:120 | the list is sorted ascending by the pixel comparator |
| FilterFirst.PermutedPositions | invisibleinktoolkit/algorithms/FilterFirst.java:120 | sorting keeps the positions inside the image and distinct |
| FilterFirst.PickAt | invisibleinktoolkit/algorithms/FilterFirst.java:135-148 | getShot for one counter value fails only with a crash (an index outside the list) |
| FilterFirst.Picks | invisibleinktoolkit/algorithms/FilterFirst.java:135-148 | n calls of getShot give n shots, or the crash one of them raises |
| FilterFirst.Decrement | invisibleinktoolkit/algorithms/FilterFirst.java:146 | the counter's decrement wraps like a Java int, one step at a time |
| FilterFirst.PicksFailFrom | invisibleinktoolkit/algorithms/FilterFirst.java:135-148 | a failing call makes every longer run fail |
| FilterFirst.PicksPrefix | invisibleinktoolkit/algorithms/FilterFirst.java:135-148 | the first m shots of a run are the run of m calls |
| FilterFirst.PicksAll | invisibleinktoolkit/algorithms/FilterFirst.java:135-148 | when no call fails, shot i of the run is call i's shot |
| FilterFirst.PickAtNonNegative | invisibleinktoolkit/algorithms/FilterFirst.java:137-144 | for a counter c in range, the remainder by 3 * bpp spells layer and bit, the quotient the list index, and c is recovered from them |
| FilterFirst.PickAtTop | invisibleinktoolkit/algorithms/FilterFirst.java:137-144 | the start count W * H * 3 * bpp names the same bit as 0: bit 0 of layer 0 of the first pixel |
| FilterFirst.PickAtInjective | invisibleinktoolkit/algorithms/FilterFirst.java:137-144 | below the start count, distinct counter values name distinct bits |
| FilterFirst.CallInRange | invisibleinktoolkit/algorithms/FilterFirst.java:81-82 | the counter starts at N, so call 0 names counter 0's bit and call i names N - i's |
| FilterFirst.FirstShots | invisibleinktoolkit/algorithms/FilterFirst.java:135-148 | the first call takes bit 0 of layer 0 of the lowest-scored pixel, the second the top bit of layer 2 of the highest-scored pixel |
| FilterFirst.LastAddress | invisibleinktoolkit/algorithms/FilterFirst.java:137-144 | the highest counter value names the top bit of layer 2 of the last pixel |
| FilterFirst.CallWrapsAround | invisibleinktoolkit/algorithms/FilterFirst.java:135-148 | one call more than there are addresses repeats the first shot |
| FilterFirst.PicksUsable | invisibleinktoolkit/algorithms/FilterFirst.java:135-148 | up to W * H * 3 * bpp calls never fail, stay in the image and below bpp, and never name one bit twice |
| FilterFirst.CallUsable | invisibleinktoolkit/algorithms/FilterFirst.java:135-148 | below the limit, a call succeeds with a shot in the image |
| FilterFirst.CallsApart | invisibleinktoolkit/algorithms/FilterFirst.java:135-148 | below the limit, two different calls name two different bits |
| FilterFirst.StartCountExact | invisibleinktoolkit/algorithms/FilterFirst.java:81-82 | without overflow the start count is the number of addresses |
| FilterFirst.PickerUsable | invisibleinktoolkit/algorithms/FilterFirst.java:70-148 | the picker of the image: a run as long as the fit test allows never fails, stays in the image, never repeats a bit and stays at or below the end bit |
| FilterFirst.RankingSurvivesWrites | invisibleinktoolkit/algorithms/FilterFirst.java:79-80 | writes at bit positions up to end leave every score unchanged, since the filter reads bits end+1..8 only, so the stego image ranks its pixels as the cover did |
| FilterFirst.ScoresSurviveWrites | invisibleinktoolkit/algorithms/FilterFirst.java:79-80 | the same for the unsorted scores |
| FilterFirst.EncodeDecode | invisibleinktoolkit/algorithms/FilterFirst.java:254-401 | the round trip: a fitting message whose address count fits an int is encoded (encode succeeds) and decoded back, with either filter |
| FilterFirst.EncodeWrites | invisibleinktoolkit/algorithms/FilterFirst.java:254-329 | encoding a fitting message writes the header and message bits at the picker's first shots |
| FilterFirst.DecodeOfWritten | invisibleinktoolkit/algorithms/FilterFirst.java:341-401 | decode with the same list reads back what those shots hold: the message |
| FilterFirst.DecodeReads | invisibleinktoolkit/algorithms/FilterFirst.java:341-401 | a plausible header followed by that many body bits decodes to those bits packed |
| FilterFirst.RunIsPicks | invisibleinktoolkit/algorithms/FilterFirst.java:135-148 | the shots the methods take one call at a time are the run Picks computes |
| FilterFirst.RunConcat | invisibleinktoolkit/algorithms/FilterFirst.java:278-324 | the header loop's run followed by the message loop's run is one run |
| FilterFirst.RunCrash | invisibleinktoolkit/algorithms/FilterFirst.java:135-148 | after a run, a failing call fails every longer run |
| FilterFirst.CallInImage | invisibleinktoolkit/algorithms/FilterFirst.java:139-144 | a successful call over a list of the image's pixels lands in the image |
| FilterFirst.EncodeRefused | invisibleinktoolkit/algorithms/FilterFirst.java:260-263 | a message that does not fit makes encode throw IllegalArgument |
| FilterFirst.EncodeCrash | invisibleinktoolkit/algorithms/FilterFirst.java:278-324 | a getShot that throws during encode makes encode fail |
| FilterFirst.EncodeSpecIs | invisibleinktoolkit/algorithms/FilterFirst.java:254-329 | a fitting message written at a successful run is encode's result |
| FilterFirst.DecodeHeaderCrash | invisibleinktoolkit/algorithms/FilterFirst.java:355-365 | a getShot that throws in the header loop makes decode fail |
| FilterFirst.DecodeNoMessage | invisibleinktoolkit/algorithms/FilterFirst.java:369-383 | a size of 8 * size2 at or above the image space, or negative, makes decode throw NoMessageException |
| FilterFirst.DecodeBodyCrash | invisibleinktoolkit/algorithms/FilterFirst.java:388-397 | a getShot that throws in the body loop makes decode fail |
| FilterFirst.DecodeSpecIs | invisibleinktoolkit/algorithms/FilterFirst.java:341-401 | a plausible header and a body read at successive shots decode to the body packed into bytes |
| FilterFirst.DecodeOfSteps | invisibleinktoolkit/algorithms/FilterFirst.java:355-399 | header bits at the first 32 shots, a plausible length, and body bits at the shots after them decode to the body packed into bytes |
| FilterFirst.SimulationMatchesEncode | invisibleinktoolkit/algorithms/FilterFirst.java:438-490 | the simulation fails exactly when encode does, with the same error |
| FilterFirst.EncodeOnOutcome | invisibleinktoolkit/algorithms/FilterFirst.java:254-329 | encode refuses a message that does not fit, fails when a getShot throws or a shot falls off the image, and otherwise succeeds |
| FilterFirst.SimulationOnOutcome | invisibleinktoolkit/algorithms/FilterFirst.java:438-490 | the simulation refuses, fails and succeeds on exactly the same conditions as encode, with the same errors |
| FilterFirst.SimulationShowsShots | invisibleinktoolkit/algorithms/FilterFirst.java:460-485 | a pixel of the simulation is lit exactly when one of encode's shots lands on it |
| FilterFirst.SimulationRefused | invisibleinktoolkit/algorithms/FilterFirst.java:443-446 | a message that does not fit makes the simulation throw IllegalArgument |
| FilterFirst.SimulationCrash | invisibleinktoolkit/algorithms/FilterFirst.java:467-485 | a getShot that throws makes the simulation fail |
| FilterFirst.SimulationSpecIs | invisibleinktoolkit/algorithms/FilterFirst.java:438-490 | marking a successful run on the blacked-out cover is the simulation's result |
| FilterFirst.GenerateList | invisibleinktoolkit/algorithms/FilterFirst.java:102-122 | generateList sets the filter's image and leaves the array holding the sorted column-major scores |
| FilterFirst.FilledAll | invisibleinktoolkit/algorithms/FilterFirst.java:110-117 | once every column is filled the array is the unsorted list |
| FilterFirst.FillColumn | invisibleinktoolkit/algorithms/FilterFirst.java:111-116 | the inner loop fills column i |
| FilterFirst.FillPixel | invisibleinktoolkit/algorithms/FilterFirst.java:112-114 | one pass of the inner loop stores pixel (i, j) with its absolute score at index i * H + j, extending the filled prefix by one |
| FilterFirst.EntryAt | invisibleinktoolkit/algorithms/FilterFirst.java:112-115 | entry i * H + j is pixel (i, j) with the absolute value of its score |
| FilterFirst.ShotPicker.constructor | invisibleinktoolkit/algorithms/FilterFirst.java:70-91 | the picker sets the filter's range to end+1..8, starts the counter at H * W * bpp * 3 and holds the sorted list |
| FilterFirst.ShotPicker.Count | invisibleinktoolkit/algorithms/FilterFirst.java:81-82 | the counter's start is H * W * bpp * 3 in Java int arithmetic, which is StartCount |
| FilterFirst.ShotPicker.GetShot | invisibleinktoolkit/algorithms/FilterFirst.java:135-148 | getShot returns the shot the counter names and decrements the counter as a Java int |
| FilterFirst.NextShot | invisibleinktoolkit/algorithms/FilterFirst.java:135-148 | the next getShot extends the run by call lo + \|shots\|'s shot, or crashes exactly as that call does |
| FilterFirst.FilterFirst.constructor | invisibleinktoolkit/algorithms/FilterFirst.java:201-227 | the fields after a valid range |
| FilterFirst.FilterFirst.New | invisibleinktoolkit/algorithms/FilterFirst.java:201-227 | the constructor throws IllegalArgument exactly for a range outside 0..7 or inverted |
| FilterFirst.FilterFirst.Default | invisibleinktoolkit/algorithms/FilterFirst.java:236-238 | the default constructor uses bits 0..0 and a Laplace filter on bits 1..8 |
| FilterFirst.FilterFirst.NewPicker | invisibleinktoolkit/algorithms/FilterFirst.java:266-271 | a new picker on the image over this algorithm's range, in its initial state |
| FilterFirst.FilterFirst.Encode | invisibleinktoolkit/algorithms/FilterFirst.java:254-329 | the method's result is EncodeSpec; a refused message leaves the filter untouched, otherwise the filter is left set to the cover and range end+1..8; on success the message has delivered every bit of the file |
| FilterFirst.FilterFirst.EncodeWith | invisibleinktoolkit/algorithms/FilterFirst.java:278-327 | both loops of encode, once the picker is built |
| FilterFirst.FilterFirst.WriteHeader | invisibleinktoolkit/algorithms/FilterFirst.java:278-299 | the header loop writes the 32 size bits at the run's shots, or fails at the call that throws |
| FilterFirst.FilterFirst.PutBit | invisibleinktoolkit/algorithms/FilterFirst.java:280-289 | one pass of the header loop extends the run by the next call's shot and writes the size bit there, or crashes as that call does |
| FilterFirst.FilterFirst.Put | invisibleinktoolkit/algorithms/FilterFirst.java:285-289 | the write both loops make: the written bits are those encode has used so far, at the run's shots |
| FilterFirst.FilterFirst.WriteBody | invisibleinktoolkit/algorithms/FilterFirst.java:302-324 | the message loop extends the run to one shot per embedded bit and writes the embedded bits at them, or crashes at a call that fails |
| FilterFirst.FilterFirst.PutMessageBit | invisibleinktoolkit/algorithms/FilterFirst.java:304-313 | one pass of the message loop extends the run by the next call's shot, writes the next message bit there and uses it up, or crashes as that call does |
| FilterFirst.FilterFirst.PutNextBit | invisibleinktoolkit/algorithms/FilterFirst.java:305-313 | the write half of that pass: the next message bit, used up from the message, is written at the shot already taken and extends the written run |
| FilterFirst.FilterFirst.Decode | invisibleinktoolkit/algorithms/FilterFirst.java:341-401 | the method's result is DecodeSpec, and the filter is left set to the image and range end+1..8 |
| FilterFirst.FilterFirst.DecodeWith | invisibleinktoolkit/algorithms/FilterFirst.java:352-400 | decode once the picker is built |
| FilterFirst.FilterFirst.ReadSize | invisibleinktoolkit/algorithms/FilterFirst.java:355-373 | the header loop and its reversal give the size the header shots spell, or a crash at the call that throws |
| FilterFirst.FilterFirst.ReadSizeBit | invisibleinktoolkit/algorithms/FilterFirst.java:357-364 | one pass of the header loop extends the run by the next call's shot, reads the bit there and shifts it into the size, which stays the Java int the bits read so far spell; a failed pass is one whose call crashes |
| FilterFirst.FilterFirst.ReadBody | invisibleinktoolkit/algorithms/FilterFirst.java:387-399 | the body loop reads `length` bits into a retrieved message and closes it, giving the bits packed |
| FilterFirst.FilterFirst.ReadBodyBit | invisibleinktoolkit/algorithms/FilterFirst.java:388-397 | one pass of the body loop appends the next bit, or crashes |
| FilterFirst.FilterFirst.ReadNext | invisibleinktoolkit/algorithms/FilterFirst.java:357-362 | the next shot and the bit, 0 or 1, at it |
| FilterFirst.FilterFirst.OutputSimulation | invisibleinktoolkit/algorithms/FilterFirst.java:438-490 | the method's result is SimulationSpec; the filter is left as encode leaves it; a refused message is left unchanged, and on success the message has delivered every bit of the file |
| FilterFirst.FilterFirst.SimulateWith | invisibleinktoolkit/algorithms/FilterFirst.java:458-487 | both loops of the simulation once the picker is built |
| FilterFirst.FilterFirst.MarkHeader | invisibleinktoolkit/algorithms/FilterFirst.java:467-474 | the first simulation loop makes 32 calls and lightens their pixels on the blacked-out cover, or crashes at a call that fails |
| FilterFirst.FilterFirst.MarkBody | invisibleinktoolkit/algorithms/FilterFirst.java:477-486 | the second loop extends the run to one shot per message bit and lightens their pixels, or crashes at a call that fails |
| FilterFirst.FilterFirst.MarkNext | invisibleinktoolkit/algorithms/FilterFirst.java:469-472 | one pass of either simulation loop lightens the pixel of the next call's shot, or crashes as that call does |
| FilterFirst.FilterFirst.SkipBit | invisibleinktoolkit/algorithms/FilterFirst.java:484 | `message.nextBit()` with its result unused: one more bit delivered |
| DynamicFilterFirst.JavaQuot | invisibleinktoolkit/algorithms/DynamicFilterFirst.java:90 | Java's int division truncates toward zero: quotient times divisor plus Java's remainder gives back the dividend, negative dividends included, and for a non-negative dividend it is Euclidean division |
| DynamicFilterFirst.KeepCountMeaning | invisibleinktoolkit/algorithms/DynamicFilterFirst.java:90-118 | the numpix + 1 pixels generateList keeps have room for every bit of a non-negative size, and the count is positive exactly when the size is above -(bpp * 3) |
| DynamicFilterFirst.ScanStep | invisibleinktoolkit/algorithms/DynamicFilterFirst.java:135-148 | scanning one more pixel is one more step of the tree-set update |
| DynamicFilterFirst.ScanShape | invisibleinktoolkit/algorithms/DynamicFilterFirst.java:133-150 | with room for a pixel the scan never throws, and the set holds min(size, scanned) distinct scanned pixels in comparator order |
| DynamicFilterFirst.SelectionStep | invisibleinktoolkit/algorithms/DynamicFilterFirst.java:137-147 | one step keeps the set such a selection |
| DynamicFilterFirst.ScanNeedsRoom | invisibleinktoolkit/algorithms/DynamicFilterFirst.java:141-142 | without room for a pixel, `first()` on the empty set throws and the scan fails |
| DynamicFilterFirst.KeptSucceeds | invisibleinktoolkit/algorithms/DynamicFilterFirst.java:127-153 | generateList succeeds exactly when the size is at least 1 and then keeps min(size, W * H) pixels; its only failure is a crash |
| DynamicFilterFirst.ExcludedScoreLower | invisibleinktoolkit/algorithms/DynamicFilterFirst.java:141-147 | with the code's test, every pixel left out scores no more than any pixel kept |
| DynamicFilterFirst.AllScannedKept | invisibleinktoolkit/algorithms/DynamicFilterFirst.java:137-139 | while the set has room it holds every scanned pixel |
| DynamicFilterFirst.BelowStep | invisibleinktoolkit/algorithms/DynamicFilterFirst.java:141-147 | once the set is full a step keeps every left-out pixel below its first element, whose score never drops |
| DynamicFilterFirst.KeptMinimumRises | invisibleinktoolkit/algorithms/DynamicFilterFirst.java:141-147 | the lowest score kept never decreases as the scan goes on |
| DynamicFilterFirst.ScanIsTop | invisibleinktoolkit/algorithms/DynamicFilterFirst.java:133-150 | with the comparator's test, or on scores that never tie, the scan keeps exactly the top `size` entries of the sorted list |
| DynamicFilterFirst.SortSeqSnoc | invisibleinktoolkit/algorithms/DynamicFilterFirst.java:138-147 | sorting one more entry inserts it into the sorted rest, as the tree set does |
| DynamicFilterFirst.TopStep | invisibleinktoolkit/algorithms/DynamicFilterFirst.java:141-147 | one step on the top of a sorted list is the top of the list with the entry inserted, when the entry does not tie with the lowest kept one |
| DynamicFilterFirst.TopDisplaced | invisibleinktoolkit/algorithms/DynamicFilterFirst.java:140-145 | when the new pixel beats the lowest of a full set, removing that one and adding the new one leaves the top `size` of the list with the new pixel inserted |
| DynamicFilterFirst.TopKept | invisibleinktoolkit/algorithms/DynamicFilterFirst.java:140-145 | when the new pixel does not beat the lowest of a full set, the set is unchanged and is still the top `size` of the list with the new pixel inserted |
| DynamicFilterFirst.ScoresNoDuplicates | invisibleinktoolkit/algorithms/DynamicFilterFirst.java:135-148 | each scanned pixel names its own position, so the tree set never drops a duplicate |
| DynamicFilterFirst.KeptIsRankingTop | invisibleinktoolkit/algorithms/DynamicFilterFirst.java:127-153 | with the comparator's test, or scores that never tie, generateList keeps the top `size` entries of the list FilterFirst sorts for the same image |
| DynamicFilterFirst.InsertLast | invisibleinktoolkit/algorithms/DynamicFilterFirst.java:138 | a record after every element is appended by the insertion |
| DynamicFilterFirst.TiedScanKeepsFirst | invisibleinktoolkit/algorithms/DynamicFilterFirst.java:141-142 | when every pixel scores the same and they arrive in ascending order, the strict test lets no later pixel in: the set is the first `size` pixels scanned |
| DynamicFilterFirst.TiedStep | invisibleinktoolkit/algorithms/DynamicFilterFirst.java:137-147 | one step of the tied scan appends while there is room and ignores the pixel after |
| DynamicFilterFirst.ColumnMajorAscends | invisibleinktoolkit/algorithms/DynamicFilterFirst.java:135-136 | the loops meet the pixels in ascending (x, y) order |
| DynamicFilterFirst.FlatKeepsFirst | invisibleinktoolkit/algorithms/DynamicFilterFirst.java:133-150 | on an image of one colour the code's test keeps the first `size` pixels of the scan |
| DynamicFilterFirst.OdometerReads | invisibleinktoolkit/algorithms/DynamicFilterFirst.java:95-105 | after n steps the bit, colour and array counters spell n |
| DynamicFilterFirst.ReadsBelow | invisibleinktoolkit/algorithms/DynamicFilterFirst.java:166-185 | below k pixels' worth of bits the picker stays within k places of the top |
| DynamicFilterFirst.ShotOf | invisibleinktoolkit/algorithms/DynamicFilterFirst.java:166-185 | getShot fails only with a crash, when the index falls below the start of the array |
| DynamicFilterFirst.Run | invisibleinktoolkit/algorithms/DynamicFilterFirst.java:166-185 | n calls give n shots or the crash that ends them |
| DynamicFilterFirst.RunCalls | invisibleinktoolkit/algorithms/DynamicFilterFirst.java:166-185 | a run succeeds exactly when each of its calls does, and holds their shots in order |
| DynamicFilterFirst.RunSplit | invisibleinktoolkit/algorithms/DynamicFilterFirst.java:166-185 | a run of a + b calls is a run of a followed by a run of b |
| DynamicFilterFirst.CallOnTop | invisibleinktoolkit/algorithms/DynamicFilterFirst.java:169 | within the first min(k, n) pixels the picker cannot tell the top k of a list from the list |
| DynamicFilterFirst.RunUsable | invisibleinktoolkit/algorithms/DynamicFilterFirst.java:166-185 | a picker over distinct pixels of the image, asked for no more bits than it holds, never throws, stays in the image and below bpp and never names one bit twice |
| DynamicFilterFirst.CallsApart | invisibleinktoolkit/algorithms/DynamicFilterFirst.java:166-185 | two different calls within the list's bits name two different bits |
| DynamicFilterFirst.RunWithin | invisibleinktoolkit/algorithms/DynamicFilterFirst.java:169 | every shot lands on a pixel of the list |
| DynamicFilterFirst.PickerWalksRanking | invisibleinktoolkit/algorithms/DynamicFilterFirst.java:77-185 | without ties under the rule, a picker kept for `messagesize` bits makes, for its first calls, the shots of a picker over the whole sorted list |
| DynamicFilterFirst.EncodeWrites | invisibleinktoolkit/algorithms/DynamicFilterFirst.java:303-378 | without ties or overflow, encode writes the header and message bits at the sorted list's first shots |
| DynamicFilterFirst.RoomForMessage | invisibleinktoolkit/algorithms/DynamicFilterFirst.java:476-490 | a fitting message leaves room for every bit decode reads, and the sizes the pickers are given do not overflow |
| DynamicFilterFirst.DecodeOfWritten | invisibleinktoolkit/algorithms/DynamicFilterFirst.java:390-465 | decode reads back what encode wrote |
| DynamicFilterFirst.SizePlausible | invisibleinktoolkit/algorithms/DynamicFilterFirst.java:420-435 | the header of a fitting message gives its exact bit count, and decode finds it plausible |
| DynamicFilterFirst.DecodeShots | invisibleinktoolkit/algorithms/DynamicFilterFirst.java:394-448 | decode's two pickers make the first 32 and the next 8 * size shots of the image's sorted list |
| DynamicFilterFirst.HeaderPicker | invisibleinktoolkit/algorithms/DynamicFilterFirst.java:394-399 | decode's first picker, kept for 50 bits, makes the list's first 32 shots |
| DynamicFilterFirst.BodyPicker | invisibleinktoolkit/algorithms/DynamicFilterFirst.java:439-444 | decode's second picker, kept for size2 + 50 bits and skipping 32 calls, makes shots 32 onwards of the list |
| DynamicFilterFirst.DecodeReads | invisibleinktoolkit/algorithms/DynamicFilterFirst.java:390-465 | a plausible header followed by a body read at the second picker's shots decodes to the body packed |
| DynamicFilterFirst.EncodeDecode | invisibleinktoolkit/algorithms/DynamicFilterFirst.java:303-465 | the round trip, with the comparator's test or on scores that never tie: a fitting message without overflow is encoded and decoded back |
| DynamicFilterFirst.EncodeErrors | invisibleinktoolkit/algorithms/DynamicFilterFirst.java:303-378 | encode throws IllegalArgument exactly when the message does not fit; every other failure is a crash |
| DynamicFilterFirst.SimulationShowsShots | invisibleinktoolkit/algorithms/DynamicFilterFirst.java:525-550 | a pixel of the simulation is lit exactly when one of its shots lands on it |
| DynamicFilterFirst.SimulationMatchesEncode | invisibleinktoolkit/algorithms/DynamicFilterFirst.java:502-555 | without ties or overflow the simulation's picker, kept for 18 more bits than encode's, makes encode's shots |
| DynamicFilterFirst.EncodePicker | invisibleinktoolkit/algorithms/DynamicFilterFirst.java:315-320 | without ties, encode's picker makes the sorted list's first shots |
| DynamicFilterFirst.SimulationPicker | invisibleinktoolkit/algorithms/DynamicFilterFirst.java:513-518 | without ties, the simulation's picker makes the sorted list's first shots |
| DynamicFilterFirst.RunMisses | invisibleinktoolkit/algorithms/DynamicFilterFirst.java:166-185 | a run over the first k pixels of a list never lands on a later pixel of it |
| DynamicFilterFirst.FlatEncode | invisibleinktoolkit/algorithms/DynamicFilterFirst.java:303-378 | on a flat cover with one bit per colour, encode writes a one-byte message's 40 bits at the first 14 pixels of the scan, and the scores are unchanged |
| DynamicFilterFirst.FlatHeader | invisibleinktoolkit/algorithms/DynamicFilterFirst.java:394-410 | on such an image decode's header picker keeps 17 pixels and starts at the 17th pixel of the scan |
| DynamicFilterFirst.HeaderMissedOnFlatImage | invisibleinktoolkit/algorithms/DynamicFilterFirst.java:141-142 | the code as written: on a flat cover, with one bit per colour and a one-byte message, encode succeeds but decode's first header shot lands on a pixel encode never wrote |
| DynamicFilterFirst.EmptyMeansNoRoom | invisibleinktoolkit/algorithms/DynamicFilterFirst.java:141-142 | a set still empty after `size` pixels means the size left no room |
| DynamicFilterFirst.ScannedIsScan | invisibleinktoolkit/algorithms/DynamicFilterFirst.java:135-148 | counting the pixels off one at a time is scanning the first n |
| DynamicFilterFirst.GenerateList | invisibleinktoolkit/algorithms/DynamicFilterFirst.java:127-153 | generateList sets the filter's image and returns the scan's set, ascending, or a crash exactly when the scan throws |
| DynamicFilterFirst.ScanColumns | invisibleinktoolkit/algorithms/DynamicFilterFirst.java:135-149 | the two loops scan every pixel, or crash as the scan does |
| DynamicFilterFirst.ScanNextColumn | invisibleinktoolkit/algorithms/DynamicFilterFirst.java:136-148 | one pass of the outer loop takes the scan from the pixels of the first i columns to those of the first i + 1, or crashes as the scan does |
| DynamicFilterFirst.ToArray | invisibleinktoolkit/algorithms/DynamicFilterFirst.java:151 | the array holds the set's pixels in ascending order |
| DynamicFilterFirst.ScanColumn | invisibleinktoolkit/algorithms/DynamicFilterFirst.java:136-148 | the inner loop scans column i |
| DynamicFilterFirst.ScanPixel | invisibleinktoolkit/algorithms/DynamicFilterFirst.java:137-147 | one pass of the inner loop offers pixel (i, j) to the set |
| DynamicFilterFirst.PixelStep | invisibleinktoolkit/algorithms/DynamicFilterFirst.java:137-147 | pixel (i, j) is entry i * H + j of the column-major scan, offering it is one step of the scan, and an empty set once the first size entries are in makes the whole scan fail |
| DynamicFilterFirst.ShotPicker.Init | invisibleinktoolkit/algorithms/DynamicFilterFirst.java:84-93 | the fields of a new picker |
| DynamicFilterFirst.ShotPicker.New | invisibleinktoolkit/algorithms/DynamicFilterFirst.java:77-115 | the picker's constructor sets the filter's range to end+1..8, steps the counters `ignore` times and keeps numpix + 1 pixels; it fails, with a crash, exactly when generateList does |
| DynamicFilterFirst.ShotPicker.KeptList | invisibleinktoolkit/algorithms/DynamicFilterFirst.java:107-114 | generateList after the range change: the kept pixels, or a crash |
| DynamicFilterFirst.ShotPicker.Skip | invisibleinktoolkit/algorithms/DynamicFilterFirst.java:90-105 | the loop over the ignored calls steps the counters `ignore` times from zero |
| DynamicFilterFirst.ShotPicker.GetShot | invisibleinktoolkit/algorithms/DynamicFilterFirst.java:166-185 | getShot returns the pixel arrayPos places below the top with the counters' bit and colour, then steps the counters |
| DynamicFilterFirst.NextShot | invisibleinktoolkit/algorithms/DynamicFilterFirst.java:166-185 | the next call of getShot extends the run, or crashes |
| DynamicFilterFirst.RunFailsLonger | invisibleinktoolkit/algorithms/DynamicFilterFirst.java:166-185 | a run that fails fails at every greater length |
| DynamicFilterFirst.KeptPositions | invisibleinktoolkit/algorithms/DynamicFilterFirst.java:135-148 | every kept pixel is a pixel of the image |
| DynamicFilterFirst.EncodeShotsAre | invisibleinktoolkit/algorithms/DynamicFilterFirst.java:315-363 | encode's shots are its picker's first calls |
| DynamicFilterFirst.EncodeCrash | invisibleinktoolkit/algorithms/DynamicFilterFirst.java:328-363 | a getShot that throws while encode writes makes encode crash |
| DynamicFilterFirst.EncodeSpecIs | invisibleinktoolkit/algorithms/DynamicFilterFirst.java:303-378 | writing the bits at the picker's run is encode's result |
| DynamicFilterFirst.HeaderShotsAre | invisibleinktoolkit/algorithms/DynamicFilterFirst.java:394-417 | the header shots are the first picker's first 32 calls |
| DynamicFilterFirst.BodyShotsAre | invisibleinktoolkit/algorithms/DynamicFilterFirst.java:439-457 | the body shots are calls 32 onwards of the second picker, or a crash when it cannot be built |
| DynamicFilterFirst.DecodeHeaderCrash | invisibleinktoolkit/algorithms/DynamicFilterFirst.java:405-417 | a getShot that throws in the header loop makes decode crash |
| DynamicFilterFirst.DecodeHeaderRead | invisibleinktoolkit/algorithms/DynamicFilterFirst.java:405-427 | once the header is read decode goes on with the length it holds |
| DynamicFilterFirst.DecodeNoMessage | invisibleinktoolkit/algorithms/DynamicFilterFirst.java:429-435 | an implausible length makes decode throw NoMessageException |
| DynamicFilterFirst.DecodeBodyPickerCrash | invisibleinktoolkit/algorithms/DynamicFilterFirst.java:439-444 | a second picker whose generateList throws makes decode crash |
| DynamicFilterFirst.DecodeBodyCrash | invisibleinktoolkit/algorithms/DynamicFilterFirst.java:447-457 | a getShot that throws in the body loop makes decode crash |
| DynamicFilterFirst.DecodeSpecIs | invisibleinktoolkit/algorithms/DynamicFilterFirst.java:390-465 | a plausible length and a body read at the second picker's shots decode to the body packed |
| DynamicFilterFirst.SimulationShotsAre | invisibleinktoolkit/algorithms/DynamicFilterFirst.java:513-550 | the simulation's shots are its picker's first calls |
| DynamicFilterFirst.SimulationCrash | invisibleinktoolkit/algorithms/DynamicFilterFirst.java:532-550 | a getShot that throws makes the simulation crash |
| DynamicFilterFirst.SimulationSpecIs | invisibleinktoolkit/algorithms/DynamicFilterFirst.java:502-555 | marking the picker's run on the blacked-out cover is the simulation's result |
| DynamicFilterFirst.DynamicFilterFirst.constructor | invisibleinktoolkit/algorithms/DynamicFilterFirst.java:250-276 | the fields after a valid range |
| DynamicFilterFirst.DynamicFilterFirst.New | invisibleinktoolkit/algorithms/DynamicFilterFirst.java:250-276 | the constructor throws IllegalArgument exactly for a range outside 0..7 or inverted |
| DynamicFilterFirst.DynamicFilterFirst.Default | invisibleinktoolkit/algorithms/DynamicFilterFirst.java:285-287 | the default constructor uses bits 0..0 and a Laplace filter on bits 1..8 |
| DynamicFilterFirst.DynamicFilterFirst.Encode | invisibleinktoolkit/algorithms/DynamicFilterFirst.java:303-378 | the method's result is EncodeOn with the object's score test; a refused message leaves message and filter unchanged, otherwise the filter is left set to the cover and range end+1..8; on success the message has delivered every bit of the file |
| DynamicFilterFirst.DynamicFilterFirst.EncodeWith | invisibleinktoolkit/algorithms/DynamicFilterFirst.java:328-376 | once the picker over the kept pixels is built, the two loops give the model of encode for a fitting message |
| DynamicFilterFirst.DynamicFilterFirst.WriteHeader | invisibleinktoolkit/algorithms/DynamicFilterFirst.java:328-350 | the header loop makes the first 32 calls and writes the size bits at their shots, or crashes at a call that fails |
| DynamicFilterFirst.DynamicFilterFirst.PutBit | invisibleinktoolkit/algorithms/DynamicFilterFirst.java:330-340 | one pass of the header loop extends the run by the next call's shot and writes the size bit there, or crashes as that call does |
| DynamicFilterFirst.DynamicFilterFirst.Put | invisibleinktoolkit/algorithms/DynamicFilterFirst.java:335-340 | the write both loops make: the written bits are those encode has used so far, at the run's shots |
| DynamicFilterFirst.DynamicFilterFirst.EncodeBody | invisibleinktoolkit/algorithms/DynamicFilterFirst.java:352-376 | after the header, the message loop and the return give the model of encode |
| DynamicFilterFirst.EncodeOutcome | invisibleinktoolkit/algorithms/DynamicFilterFirst.java:352-376 | how the message loop ends decides encode's result: the crash of a failing call, or the stego image of the bits written at the run |
| DynamicFilterFirst.DynamicFilterFirst.WriteBody | invisibleinktoolkit/algorithms/DynamicFilterFirst.java:352-373 | the message loop extends the run to one shot per embedded bit and writes the embedded bits at them, or crashes at a call that fails |
| DynamicFilterFirst.DynamicFilterFirst.PutMessageBit | invisibleinktoolkit/algorithms/DynamicFilterFirst.java:354-363 | one pass of the message loop extends the run by the next call's shot, writes the next message bit there and uses it up, or crashes as that call does |
| DynamicFilterFirst.DynamicFilterFirst.Decode | invisibleinktoolkit/algorithms/DynamicFilterFirst.java:390-465 | the method's result is DecodeOn with the object's score test, and the filter is left set to the image and range end+1..8 |
| DynamicFilterFirst.DynamicFilterFirst.DecodeBody | invisibleinktoolkit/algorithms/DynamicFilterFirst.java:439-463 | decode after a plausible header: the second picker and the body loop |
| DynamicFilterFirst.DynamicFilterFirst.ReadSize | invisibleinktoolkit/algorithms/DynamicFilterFirst.java:405-427 | the header loop and its reversal give the length the header shots spell, or a crash |
| DynamicFilterFirst.DynamicFilterFirst.ReadBody | invisibleinktoolkit/algorithms/DynamicFilterFirst.java:446-463 | the body loop reads `length` bits and closes the message, giving the bits packed |
| DynamicFilterFirst.DynamicFilterFirst.ReadBodyBits | invisibleinktoolkit/algorithms/DynamicFilterFirst.java:447-457 | the body loop passes the bits at successive shots to the message, stopping at a crash |
| DynamicFilterFirst.DynamicFilterFirst.ReadBodyBit | invisibleinktoolkit/algorithms/DynamicFilterFirst.java:448-455 | one pass of the body loop extends the run by the next call's shot and appends its bit to the retrieved message, or crashes as that call does and leaves the message as it was |
| DynamicFilterFirst.DynamicFilterFirst.ReadNext | invisibleinktoolkit/algorithms/DynamicFilterFirst.java:407-412 | one pass of either decode loop extends the run by the next call's shot and returns its bit, 0 or 1, appended to the bits read; or crashes as that call does |
| DynamicFilterFirst.DynamicFilterFirst.OutputSimulation | invisibleinktoolkit/algorithms/DynamicFilterFirst.java:502-555 | the method's result is SimulationOn with the object's score test; a refused message leaves message and filter unchanged, otherwise the filter is left set to the cover and range end+1..8; on success the message has delivered every bit of the file |
| DynamicFilterFirst.DynamicFilterFirst.SimulateWith | invisibleinktoolkit/algorithms/DynamicFilterFirst.java:524-554 | once the picker is built, the blackout and both loops give the model of outputSimulation for a fitting message |
| DynamicFilterFirst.DynamicFilterFirst.SimulateBody | invisibleinktoolkit/algorithms/DynamicFilterFirst.java:542-554 | after the header loop, the second loop and the return give the model of outputSimulation |
| DynamicFilterFirst.SimulationOfMarks | invisibleinktoolkit/algorithms/DynamicFilterFirst.java:542-554 | how the second simulation loop ends decides outputSimulation's result: the crash of a failing call, or the image with the run's pixels lightened |
| DynamicFilterFirst.DynamicFilterFirst.MarkHeader | invisibleinktoolkit/algorithms/DynamicFilterFirst.java:532-539 | the simulation's first loop lightens the 32 header shots' pixels |
| DynamicFilterFirst.DynamicFilterFirst.MarkBody | invisibleinktoolkit/algorithms/DynamicFilterFirst.java:542-551 | the second loop extends the run to one shot per message bit and lightens their pixels, or crashes at a call that fails |
| DynamicFilterFirst.DynamicFilterFirst.MarkNext | invisibleinktoolkit/algorithms/DynamicFilterFirst.java:534-537 | one pass of either simulation loop lightens the pixel of the next call's shot, or crashes as that call does |
| DynamicFilterFirst.DynamicFilterFirst.SkipBit | invisibleinktoolkit/algorithms/DynamicFilterFirst.java:549 | `message.nextBit()` with its result unused: one more bit delivered |
| BPRandom.RunEnd | invisibleinktoolkit/algorithms/BattleSteg.java:171-178 | the first tie loop of generateShips ends at or after its start, within the array |
| BPRandom.RunStart | invisibleinktoolkit/algorithms/BattleSteg.java:180-183 | the second tie loop ends at or before its start |
| BPRandom.TieRangeNeedsTwenty | invisibleinktoolkit/algorithms/BattleSteg.java:168-185 | generateShips reads past the array exactly when the image has fewer than 20 pixels |
| BPRandom.RunEndFacts | invisibleinktoolkit/algorithms/BattleSteg.java:171-178 | the first loop stops at the end of the run of equal scores or at the end of the array |
| BPRandom.RunStartFacts | invisibleinktoolkit/algorithms/BattleSteg.java:180-183 | the second loop stops at the start of the run or at index 0 |
| BPRandom.TieRangeIsRun | invisibleinktoolkit/algorithms/BattleSteg.java:168-185 | the shuffled range [count, countend) is the run of scores equal to the first score of the top tenth: maximal upwards, and downwards stopping at index 1 at the lowest |
| BPRandom.Swap | invisibleinktoolkit/algorithms/BattleSteg.java:255-257 | exchanging two entries keeps the length |
| BPRandom.Pass | invisibleinktoolkit/algorithms/BattleSteg.java:253-254 | the two `nextInt(end - start)` draws of one pass lie below end - start |
| BPRandom.SwapPairs | invisibleinktoolkit/algorithms/BattleSteg.java:252-258 | k passes draw k pairs of offsets below end - start |
| BPRandom.ShuffleFromFails | invisibleinktoolkit/algorithms/BattleSteg.java:247-259 | no pass leaves the list as it is; otherwise the shuffle fails exactly when a draw does, and only by the model's redraw bound |
| BPRandom.ShuffleIsPasses | invisibleinktoolkit/algorithms/BattleSteg.java:248-258 | the shuffle is end - start passes from the state of `new Random(0)` |
| BPRandom.ShuffleFromStep | invisibleinktoolkit/algorithms/BattleSteg.java:252-258 | one pass draws two offsets, swaps the two entries and goes on with the rest |
| BPRandom.ShuffleFromDraws | invisibleinktoolkit/algorithms/BattleSteg.java:253-257 | a pass whose two draws give offsets a and b is the swap of start + a with start + b, followed by the remaining passes from the generator after the draws |
| BPRandom.ShuffleFromDrawFails | invisibleinktoolkit/algorithms/BattleSteg.java:253-254 | a pass whose draws give up makes the remaining passes fail with that error |
| BPRandom.ShuffleFromStepFails | invisibleinktoolkit/algorithms/BattleSteg.java:252-258 | a pass whose draws give up makes the shuffle hang from that pass on |
| BPRandom.ApplySwapsPermutes | invisibleinktoolkit/algorithms/BattleSteg.java:255-257 | the swaps keep the entries: the result is a permutation |
| BPRandom.ApplySwapsOutside | invisibleinktoolkit/algorithms/BattleSteg.java:255-257 | the swaps move nothing outside [start, end) |
| BPRandom.ShuffleFacts | invisibleinktoolkit/algorithms/BattleSteg.java:247-259 | shufflePixels is a permutation that moves nothing outside [start, end) and keeps a run of equal scores equal |
| BPRandom.ShuffleKeepsOrder | invisibleinktoolkit/algorithms/BattleSteg.java:185 | permuting a run of equal scores among itself keeps the list in ascending order of score |
| BPRandom.StrengthIsScore | invisibleinktoolkit/algorithms/BattleSteg.java:162 | the strength generateShips compares is the pixel's score |
| BPRandom.ShuffledRanking | invisibleinktoolkit/algorithms/BattleSteg.java:145-185 | the sorted, partly shuffled list has one entry per pixel |
| BPRandom.ShuffledRankingPermutes | invisibleinktoolkit/algorithms/BattleSteg.java:145-185 | the list is a permutation of the sorted scores that moves only the run of equal scores around the top tenth |
| BPRandom.ShuffledRankingOrdered | invisibleinktoolkit/algorithms/BattleSteg.java:145-185 | the shuffled list is still ascending by score |
| BPRandom.ShuffledRankingTruthful | invisibleinktoolkit/algorithms/BattleSteg.java:145-185 | every entry is a pixel of the image with its own score, and there are at least 20 |
| BPRandom.Around | invisibleinktoolkit/algorithms/BattleSteg.java:199-222 | the neighbours generateShips checks lie in the image |
| BPRandom.EscortsBySide | invisibleinktoolkit/algorithms/BattleSteg.java:199-222 | the escorts of an engine are what the four neighbour checks find, left, right, below and above in that order |
| BPRandom.SideAt | invisibleinktoolkit/algorithms/BattleSteg.java:199-204 | a neighbour is an escort exactly when it is inside the image and scores at least the median |
| BPRandom.Fleets | invisibleinktoolkit/algorithms/BattleSteg.java:194-233 | the ships each engine adds, engine by engine |
| BPRandom.Engines | invisibleinktoolkit/algorithms/BattleSteg.java:188-191 | the engines are the top tenth of the list, best first: engines[i - 1] is fparray[length - i] |
| BPRandom.EngineShipGood | invisibleinktoolkit/algorithms/BattleSteg.java:194-233 | a ship of an engine lies in the image and scores at least the median |
| BPRandom.ShipsAboveMedian | invisibleinktoolkit/algorithms/BattleSteg.java:145-237 | every ship is a pixel of the image scoring at least the median |
| BPRandom.EnginesAboveMedian | invisibleinktoolkit/algorithms/BattleSteg.java:188-193 | no engine scores below the median |
| BPRandom.ShipsSurviveWrites | invisibleinktoolkit/algorithms/BattleSteg.java:107-108 | writes at bit positions up to end leave the ships unchanged, since the filter reads bits end+1..8: decode finds the ships encode found |
| BPRandom.FleetsSurviveWrites | invisibleinktoolkit/algorithms/BattleSteg.java:107-108 | the same for each engine's ships |
| BPRandom.EscortsSurviveWrites | invisibleinktoolkit/algorithms/BattleSteg.java:107-108 | the same for each engine's escorts |
| BPRandom.Dec | invisibleinktoolkit/algorithms/BattleSteg.java:294-295 | a decrement of an int stays an int |
| BPRandom.Ranged | invisibleinktoolkit/algorithms/BattleSteg.java:296 | a ranged shot lies in the image, on a layer and in the bit range |
| BPRandom.RangedIsGetRangedShot | invisibleinktoolkit/util/PRandom.java:102-141 | the ranged shot is PRandom's getRangedShot |
| BPRandom.Volley | invisibleinktoolkit/algorithms/BattleSteg.java:299-302 | a redraw is a free shot once a counter has run out and a ranged shot before |
| BPRandom.Hunt | invisibleinktoolkit/algorithms/BattleSteg.java:298-305 | the redraw loop ends on a shot on an unused bit inside the generator's bounds, with both counters still ints |
| BPRandom.HuntRedraws | invisibleinktoolkit/algorithms/BattleSteg.java:298-305 | a used shot is redrawn and both counters go down once more |
| BPRandom.HuntNext | invisibleinktoolkit/algorithms/BattleSteg.java:298-305 | a pass of the redraw loop that goes on past a used shot continues from the next draw with both counters decremented and one redraw less |
| BPRandom.Explore | invisibleinktoolkit/algorithms/BattleSteg.java:272-291 | the free-shot branch gives a shot on an unused bit and marks exactly that bit |
| BPRandom.Exploit | invisibleinktoolkit/algorithms/BattleSteg.java:292-314 | the ranged branch gives a shot on an unused bit and marks exactly that bit |
| BPRandom.ExploitSteps | invisibleinktoolkit/algorithms/BattleSteg.java:292-314 | the ranged branch is the ranged shot, then its redraw loop, then the landing |
| BPRandom.Landed | invisibleinktoolkit/algorithms/BattleSteg.java:307-313 | after landing, exactly the shot's bit is added to the used ones |
| BPRandom.Fire | invisibleinktoolkit/algorithms/BattleSteg.java:270-316 | getShot gives a shot in the generator's bounds on a bit not used before, and marks exactly that bit |
| BPRandom.TurnIsFire | invisibleinktoolkit/algorithms/BattleSteg.java:270-316 | the held-back form of getShot is getShot |
| BPRandom.Shots | invisibleinktoolkit/algorithms/BattleSteg.java:270-316 | n calls give n shots |
| BPRandom.ShotsFresh | invisibleinktoolkit/algorithms/BattleSteg.java:270-316 | the shots of a run fit the generator, avoid the bits used before and never repeat a bit; exactly their bits are then used |
| BPRandom.ShotsSplit | invisibleinktoolkit/algorithms/BattleSteg.java:270-316 | a + m shots are a shots and then m more from the board those left |
| BPRandom.ShotsFailLonger | invisibleinktoolkit/algorithms/BattleSteg.java:270-316 | a run that fails fails the same way for any longer run |
| BPRandom.SplitRun | invisibleinktoolkit/algorithms/BattleSteg.java:270-316 | a run splits into its first a shots and the rest |
| BPRandom.ShotsNext | invisibleinktoolkit/algorithms/BattleSteg.java:270-316 | the next shot of a run is getShot on the board the run reached |
| BPRandom.StartBoard | invisibleinktoolkit/algorithms/BattleSteg.java:87-136 | a new BPRandom has the image's size, nothing shot and both counters at 0, so its first shot is a free one |
| BPRandom.RunUsable | invisibleinktoolkit/algorithms/BattleSteg.java:270-316 | the shots of a run from the start lie in the image, at or below the end bit, on distinct bits |
| BPRandom.I32Congruent | invisibleinktoolkit/algorithms/BattleSteg.java:294-295 | int arithmetic forgets multiples of 2^32 |
| BPRandom.DecShift | invisibleinktoolkit/algorithms/BattleSteg.java:303-304 | d + 1 decrements of an int subtract d + 1 with wrap-around |
| BPRandom.HuntCounters | invisibleinktoolkit/algorithms/BattleSteg.java:298-305 | after d redraws each counter is its start value minus d, in int arithmetic |
| BPRandom.FireCounters | invisibleinktoolkit/algorithms/BattleSteg.java:270-316 | after a free shot mMoveAway is mMoveAwayFixed and mNumShots is mInitShots on a ship and 0 elsewhere; after a ranged shot with d redraws both are d + 1 lower, a hit adds mShotsIncrease and becomes the last shot |
| BPRandom.ExploreCounters | invisibleinktoolkit/algorithms/BattleSteg.java:272-290 | a free shot sets mMoveAway to mMoveAwayFixed, and mNumShots to mInitShots on a ship and to 0 elsewhere |
| BPRandom.HitCounters | invisibleinktoolkit/algorithms/BattleSteg.java:296-313 | after a ranged shot and d redraws, each counter is its decremented value less d as a Java int, and a hit adds mShotsIncrease to mNumShots and recentres on the shot |
| BPRandom.ExploitCounters | invisibleinktoolkit/algorithms/BattleSteg.java:292-314 | the counters after a ranged shot with d redraws: moveAway and numShots are their decremented values less d as Java ints, and a hit adds mShotsIncrease to numShots and becomes the last hit |
| BPRandom.ExploitLands | invisibleinktoolkit/algorithms/BattleSteg.java:292-314 | a ranged branch that succeeds is a ranged shot, a redraw loop from the shot that succeeds with a hit, and the board that hit lands on |
| BPRandom.LandedCounters | invisibleinktoolkit/algorithms/BattleSteg.java:307-313 | a hit adds mShotsIncrease to mNumShots with int wrap-around and is passed to setLast |
| BattleSteg.ClearShips | invisibleinktoolkit/algorithms/BattleSteg.java:123-128 | a fresh mShips has no ship |
| BattleSteg.Hoist | invisibleinktoolkit/algorithms/BattleSteg.java:203-233 | setting one entry of mShips adds exactly that cell to the ships |
| BattleSteg.FindTieRange | invisibleinktoolkit/algorithms/BattleSteg.java:168-185 | the two loops find the tie range of the sorted list, or read past it as BPRandom.TieRange says |
| BattleSteg.ShufflePixels | invisibleinktoolkit/algorithms/BattleSteg.java:247-259 | the array afterwards is the shuffle of its old contents, or the draw fails |
| BattleSteg.SwapPasses | invisibleinktoolkit/algorithms/BattleSteg.java:252-258 | the loop makes the passes of the shuffle |
| BattleSteg.SwapPass | invisibleinktoolkit/algorithms/BattleSteg.java:253-257 | one pass of the shuffle leaves the passes still to go as BPRandom.Passes says, or ends the shuffle with the draw's error |
| BattleSteg.Draws | invisibleinktoolkit/algorithms/BattleSteg.java:253-254 | the two draws of one pass, with the generator's new seed |
| BattleSteg.Exchange | invisibleinktoolkit/algorithms/BattleSteg.java:255-257 | the array afterwards is the old one with the two entries swapped |
| BattleSteg.TopTenth | invisibleinktoolkit/algorithms/BattleSteg.java:188-191 | a fresh array of the top tenth, best first |
| BattleSteg.Neighbour | invisibleinktoolkit/algorithms/BattleSteg.java:199-204 | one check charts the neighbour as a ship exactly when it scores at least the median, and reports whether it did |
| BattleSteg.Look | invisibleinktoolkit/algorithms/BattleSteg.java:199-222 | a check guarded by the neighbour lying in the image; acount is positive exactly when some escort was found |
| BattleSteg.LookAround | invisibleinktoolkit/algorithms/BattleSteg.java:199-222 | the four checks chart the engine's escorts, and acount is positive exactly when there is one |
| BattleSteg.MarkEngine | invisibleinktoolkit/algorithms/BattleSteg.java:194-233 | an engine becomes a ship exactly when it has an escort |
| BattleSteg.MarkShips | invisibleinktoolkit/algorithms/BattleSteg.java:192-234 | mShips afterwards holds exactly the ships of all the engines |
| BattleSteg.RankPixels | invisibleinktoolkit/algorithms/BattleSteg.java:145-185 | the sorted and partly shuffled list, or the error that ends generateShips |
| BattleSteg.RangedShot | invisibleinktoolkit/util/PRandom.java:102-141 | PRandom's getRangedShot as the Ranged function states it |
| BattleSteg.BPRandom.constructor | invisibleinktoolkit/algorithms/BattleSteg.java:98-128 | a fresh generator at the start board, with the filter on the bits above the writable range and no ship yet |
| BattleSteg.BPRandom.GenerateShips | invisibleinktoolkit/algorithms/BattleSteg.java:145-237 | the ships are those BPRandom.ShipsSpec gives, or generateShips fails with its error; either way the filter is left set to the image and range end+1..8 |
| BattleSteg.BPRandom.ChartFleet | invisibleinktoolkit/algorithms/BattleSteg.java:193-235 | once the ranking is shuffled, the engines and the median mark exactly the ships BPRandom.ShipsSpec gives |
| BattleSteg.BPRandom.New | invisibleinktoolkit/algorithms/BattleSteg.java:87-136 | the constructor: the start board and ShipsSpec's ships, or ShipsSpec's failure where the program exits; either way the filter is left set to the image and range end+1..8 |
| BattleSteg.BPRandom.GetShot | invisibleinktoolkit/algorithms/BattleSteg.java:270-316 | getShot moves the generator as BPRandom.Fire says, and keeps the ships |
| BattleSteg.BPRandom.Explore | invisibleinktoolkit/algorithms/BattleSteg.java:272-291 | the free-shot branch as BPRandom.Explore says |
| BattleSteg.BPRandom.Exploit | invisibleinktoolkit/algorithms/BattleSteg.java:292-314 | the ranged branch as BPRandom.Exploit says |
| BattleSteg.BPRandom.Settle | invisibleinktoolkit/algorithms/BattleSteg.java:298-313 | the redraw loop and then the landing |
| BattleSteg.BPRandom.Land | invisibleinktoolkit/algorithms/BattleSteg.java:307-313 | the landing as BPRandom.Landed says |
| BattleSteg.BPRandom.Chase | invisibleinktoolkit/algorithms/BattleSteg.java:298-305 | the redraw loop as BPRandom.Hunt says |
| BattleSteg.BPRandom.Rehunt | invisibleinktoolkit/algorithms/BattleSteg.java:299-305 | a shot on a used bit is redrawn, and the loop's outcome from the new shot with one redraw less is BPRandom.Hunt's outcome from the old one |
| BattleSteg.BPRandom.Redraw | invisibleinktoolkit/algorithms/BattleSteg.java:299-304 | one redraw as BPRandom.Volley says, with both counters decremented |
| BattleSteg.EncodeSpec | invisibleinktoolkit/algorithms/BattleSteg.java:447-522 | encode gives an image of the cover's size and kind; SimulationMatchesEncode, SimulationCoversEncode and DecodeOfRun relate it to the simulation and to decode |
| BattleSteg.EncodeDecode | invisibleinktoolkit/algorithms/BattleSteg.java:447-599 | decode with the same seed, bit range, tuning and filter gives back the message encode hid |
| BattleSteg.DecodeOfRun | invisibleinktoolkit/algorithms/BattleSteg.java:535-599 | decoding what a complete run of encode wrote gives back the message |
| BattleSteg.RunHalves | invisibleinktoolkit/algorithms/BattleSteg.java:472-517 | the run of encode split after the header; the stego image gives decode the same start board |
| BattleSteg.HeaderReadAfterWrite | invisibleinktoolkit/algorithms/BattleSteg.java:539-564 | decode on the stego image finds the ships and header shots encode used on the cover |
| BattleSteg.MooredAnyHold | invisibleinktoolkit/algorithms/BattleSteg.java:130-135 | the ships found behind any unfolding are ShipsSpec's |
| BattleSteg.EncodeRefused | invisibleinktoolkit/algorithms/BattleSteg.java:453-456 | a message that does not fit is refused with IllegalArgumentException |
| BattleSteg.EncodeShipsFail | invisibleinktoolkit/algorithms/BattleSteg.java:459-465 | when the generator cannot be built, encode fails with that error |
| BattleSteg.EncodeShotFails | invisibleinktoolkit/algorithms/BattleSteg.java:472-517 | when a shot of encode cannot be made, encode fails with that error |
| BattleSteg.EncodeSpecIs | invisibleinktoolkit/algorithms/BattleSteg.java:447-522 | when the run succeeds, encode is the cover with the embedded bits written at the run's shots |
| BattleSteg.DecodeShipsFail | invisibleinktoolkit/algorithms/BattleSteg.java:539-545 | when the generator cannot be built, decode fails with that error |
| BattleSteg.DecodeHeaderFails | invisibleinktoolkit/algorithms/BattleSteg.java:553-564 | a header shot that cannot be made ends decode with its error |
| BattleSteg.DecodeNoMessage | invisibleinktoolkit/algorithms/BattleSteg.java:576-582 | a size that is negative or not below the image space gives NoMessageException |
| BattleSteg.DecodeBodyFails | invisibleinktoolkit/algorithms/BattleSteg.java:587-596 | a body shot that cannot be made ends decode with its error |
| BattleSteg.DecodeSpecIs | invisibleinktoolkit/algorithms/BattleSteg.java:535-599 | when every shot succeeds, decode is Pack of the body bits |
| BattleSteg.SimulationSpec | invisibleinktoolkit/algorithms/BattleSteg.java:636-690 | the simulation is an image of the cover's size and kind; SimulationMatchesEncode proves it lightens the pixels encode writes |
| BattleSteg.RunLength | invisibleinktoolkit/algorithms/BattleSteg.java:667-686 | the simulation takes at least the 32 header shots |
| BattleSteg.SimulationMatchesEncode | invisibleinktoolkit/algorithms/BattleSteg.java:636-690 | the simulation fails exactly when encode does, with the same error |
| BattleSteg.SimulationCoversEncode | invisibleinktoolkit/algorithms/BattleSteg.java:636-690 | a pixel the simulation leaves black is one encode does not change |
| BattleSteg.BothOfRun | invisibleinktoolkit/algorithms/BattleSteg.java:636-690 | encode and the simulation use the same run of shots |
| BattleSteg.SimulationRefused | invisibleinktoolkit/algorithms/BattleSteg.java:641-644 | a message that does not fit is refused with IllegalArgumentException |
| BattleSteg.SimulationShipsFail | invisibleinktoolkit/algorithms/BattleSteg.java:647-653 | when the generator cannot be built, the simulation fails with that error |
| BattleSteg.SimulationShotFails | invisibleinktoolkit/algorithms/BattleSteg.java:667-686 | a shot that cannot be made ends the simulation with its error |
| BattleSteg.SimulationSpecIs | invisibleinktoolkit/algorithms/BattleSteg.java:636-690 | when the run succeeds, the simulation is the blacked-out cover lightened at every shot |
| BattleSteg.Shoot | invisibleinktoolkit/algorithms/BattleSteg.java:474 | getShot inside a run gives the run's next shot, or its error |
| BattleSteg.StartWritten | invisibleinktoolkit/algorithms/BattleSteg.java:466-470 | before the loops nothing is written |
| BattleSteg.WrittenAll | invisibleinktoolkit/algorithms/BattleSteg.java:496-520 | after the last bit the whole run is made and every bit written |
| BattleSteg.PutBit | invisibleinktoolkit/algorithms/BattleSteg.java:478-483 | one shot of encode writes the next bit of the embedded stream |
| BattleSteg.BattleSteg.constructor | invisibleinktoolkit/algorithms/BattleSteg.java:410-419 | the fields are the arguments |
| BattleSteg.BattleSteg.New | invisibleinktoolkit/algorithms/BattleSteg.java:389-420 | bit ranges outside 0..6 or inverted are refused with IllegalArgumentException, and only those |
| BattleSteg.BattleSteg.Default | invisibleinktoolkit/algorithms/BattleSteg.java:429-431 | bit range 0..0, tuning 10, 5, 2, 1 and a Laplace filter on bits 1..8 |
| BattleSteg.BattleSteg.Encode | invisibleinktoolkit/algorithms/BattleSteg.java:447-522 | the method's result is EncodeSpec; a refused message leaves message and filter unchanged, otherwise the filter is left set to the cover and range end+1..8; on success the message has delivered every bit of the file |
| BattleSteg.BattleSteg.EncodeWith | invisibleinktoolkit/algorithms/BattleSteg.java:472-520 | once the message fits and the generator stands at the seed's start, the two loops give EncodeSpec |
| BattleSteg.BattleSteg.EncodeRun | invisibleinktoolkit/algorithms/BattleSteg.java:472-517 | both loops make the run of shots and write the embedded bits at them, or stop with the failing shot's error |
| BattleSteg.BattleSteg.EncodeHeader | invisibleinktoolkit/algorithms/BattleSteg.java:472-494 | the header loop makes the generator's first 32 shots and writes the size bits at them, or fails with the error of the shot it could not make; the ships stay as charted |
| BattleSteg.BattleSteg.EncodeBody | invisibleinktoolkit/algorithms/BattleSteg.java:496-517 | the message loop extends the run to one shot per embedded bit and writes the embedded bits at them, or fails with the error of the next shot |
| BattleSteg.BattleSteg.PutMessageBit | invisibleinktoolkit/algorithms/BattleSteg.java:498-507 | one pass of the message loop extends the run by the generator's next shot, writes the next message bit there and uses it up, or fails with that shot's error |
| BattleSteg.BattleSteg.Decode | invisibleinktoolkit/algorithms/BattleSteg.java:535-599 | the method's result is DecodeSpec, and the filter is left set to the image and range end+1..8 |
| BattleSteg.BattleSteg.DecodeWith | invisibleinktoolkit/algorithms/BattleSteg.java:549-599 | decode once the generator stands is DecodeSpec |
| BattleSteg.BattleSteg.ReadHeaderBits | invisibleinktoolkit/algorithms/BattleSteg.java:553-570 | the 32 header shots, the bits read at them, and the size they spell as an int |
| BattleSteg.BattleSteg.DecodeSized | invisibleinktoolkit/algorithms/BattleSteg.java:567-598 | after the header loop, the reversal, the size check and the body loop give DecodeSpec |
| BattleSteg.BattleSteg.ReadBody | invisibleinktoolkit/algorithms/BattleSteg.java:584-598 | length more shots, and the message is Pack of the bits read at them |
| BattleSteg.BattleSteg.ReadBodyBits | invisibleinktoolkit/algorithms/BattleSteg.java:587-596 | the body loop makes `length` more shots of the generator and passes their bits to the retrieved message, or fails with the error of the shot it could not make |
| BattleSteg.BattleSteg.ReadNext | invisibleinktoolkit/algorithms/BattleSteg.java:555-562 | one pass of either decode loop extends the run by the generator's next shot and returns its bit, 0 or 1, appended to the bits read; or fails with that shot's error |
| BattleSteg.BattleSteg.OutputSimulation | invisibleinktoolkit/algorithms/BattleSteg.java:636-690 | the method's result is SimulationSpec; a refused message leaves message and filter unchanged, otherwise the filter is left set to the cover and range end+1..8; on success the message has delivered every bit of the file |
| BattleSteg.BattleSteg.SimulateWith | invisibleinktoolkit/algorithms/BattleSteg.java:660-689 | once the message fits and the generator stands at the seed's start, the blackout and both loops give SimulationSpec |
| BattleSteg.BattleSteg.MarkRun | invisibleinktoolkit/algorithms/BattleSteg.java:667-686 | both loops make the generator's run of shots, one per embedded bit, and lighten their pixels on the blacked-out cover, or fail with the error of the next shot |
| BattleSteg.BattleSteg.MarkHeader | invisibleinktoolkit/algorithms/BattleSteg.java:667-675 | the first loop makes 32 shots and lightens their pixels, or fails with the error of the shot it could not make |
| BattleSteg.BattleSteg.MarkBody | invisibleinktoolkit/algorithms/BattleSteg.java:678-686 | the second loop extends the run to one shot per message bit and lightens their pixels, or fails with the error of the next shot |
| BattleSteg.BattleSteg.MarkBit | invisibleinktoolkit/algorithms/BattleSteg.java:680-685 | one pass of the message loop lightens the pixel of the next shot and uses a message bit up, or fails with that shot's error |
| BattleSteg.BattleSteg.MarkNext | invisibleinktoolkit/algorithms/BattleSteg.java:669-673 | one pass of either simulation loop lightens the pixel of the generator's next shot, or fails with that shot's error |
| QuickSort.PivotTypeOf | invisibleinktoolkit/util/QuickSort.java:94-98 | a known pivot type is kept, anything else becomes RANDOM_PIVOT |
| QuickSort.MedianOf | invisibleinktoolkit/util/QuickSort.java:258-266 | getMedian gives 0 when a lies between b and c, else 1 when b lies between a and c, else 2, and then c lies between a and b |
| QuickSort.Identity | invisibleinktoolkit/util/QuickSort.java:123-127 | the column order that moves nothing |
| QuickSort.Swap | invisibleinktoolkit/util/QuickSort.java:129-138 | the column order of one swap |
| QuickSort.Rotation | invisibleinktoolkit/util/QuickSort.java:293-304 | the column order of one insertion: column i to j, j..i-1 one place up |
| QuickSort.Compose | invisibleinktoolkit/util/QuickSort.java:123-202 | two column orders one after the other |
| QuickSort.IdentityShuffle | invisibleinktoolkit/util/QuickSort.java:125-127 | moving nothing is a permutation of any range |
| QuickSort.SwapShuffle | invisibleinktoolkit/util/QuickSort.java:129-138 | a swap inside a range permutes that range and leaves every other column in place |
| QuickSort.RotationShuffle | invisibleinktoolkit/util/QuickSort.java:293-304 | an insertion inside a range permutes that range and leaves every other column in place |
| QuickSort.ComposeShuffle | invisibleinktoolkit/util/QuickSort.java:193-201 | two permutations of a range in turn are one |
| QuickSort.WidenShuffle | invisibleinktoolkit/util/QuickSort.java:193-201 | a permutation of a sub-range is one of the whole range |
| QuickSort.Row0 | invisibleinktoolkit/util/QuickSort.java:29-32 | the row the sort orders by |
| QuickSort.SwapColumns | invisibleinktoolkit/util/QuickSort.java:129-138 | the loop over the rows exchanges columns i and j in every row |
| QuickSort.RotateRow | invisibleinktoolkit/util/QuickSort.java:293-304 | in one row, entry i moves to j and j..i-1 move up one place |
| QuickSort.RotateColumns | invisibleinktoolkit/util/QuickSort.java:293-304 | the loop over the rows moves column i to j in every row |
| QuickSort.InsertionSort | invisibleinktoolkit/util/QuickSort.java:275-308 | the corrected insertionSort: every row is permuted by the same permutation of start..finish, and a range of three or more columns ends ascending in row 0 |
| QuickSort.InsertStep | invisibleinktoolkit/util/QuickSort.java:282-307 | one pass of the outer loop extends the ascending prefix by one column, by a permutation of the range |
| QuickSort.InsertColumn | invisibleinktoolkit/util/QuickSort.java:285-305 | column i moves to the first column whose key is not below its own, and the prefix stays ascending |
| QuickSort.Partition | invisibleinktoolkit/util/QuickSort.java:148-190 | after the split the pivot's value sits at s2, every column before it is not above it and every column after it is above it, by a permutation of start..finish applied to all rows |
| QuickSort.SplitStep | invisibleinktoolkit/util/QuickSort.java:168-179 | one pass of the split loop keeps the split invariant and narrows s1..s2 |
| QuickSort.PivotBack | invisibleinktoolkit/util/QuickSort.java:181-190 | the duplicate check and the swap back put the pivot between the two sides |
| QuickSort.FromGrid | invisibleinktoolkit/util/QuickSort.java:275 | an int[][] whose rows are distinct objects |
| QuickSort.ReadCell | invisibleinktoolkit/util/QuickSort.java:289 | sarray[t][c] reads the object row t refers to, and fails exactly when an index is out of bounds |
| QuickSort.WriteCell | invisibleinktoolkit/util/QuickSort.java:303 | sarray[t][c] = v writes the object row t refers to, and fails exactly when an index is out of bounds |
| QuickSort.AliasRow | invisibleinktoolkit/util/QuickSort.java:299 | sarray[k] = sarray[from] makes row k refer to row from's object, and fails exactly when a row index is out of bounds |
| QuickSort.ShiftAsWritten | invisibleinktoolkit/util/QuickSort.java:298-300 | the shift loop as written, over rows, keeps the number of rows and touches row i |
| QuickSort.MoveAsWritten | invisibleinktoolkit/util/QuickSort.java:293-304 | the loop over t as written keeps the number of rows |
| QuickSort.FindAsWritten | invisibleinktoolkit/util/QuickSort.java:288-291 | the search for the insertion point stops at or before column i |
| QuickSort.PassesAsWritten | invisibleinktoolkit/util/QuickSort.java:282-307 | the outer loop as written keeps the number of rows |
| QuickSort.InsertionSortAsWritten | invisibleinktoolkit/util/QuickSort.java:275-308 | insertionSort as written returns at once for two columns or fewer |
| QuickSort.InsertionSortAsWrittenCrashes | invisibleinktoolkit/util/QuickSort.java:298-300 | on rows {1, 2, 0} and {10, 20, 30} over columns 0..2 the as-written shift indexes row 2 of a two-row array |
| QuickSort.PopOrder | invisibleinktoolkit/util/QuickSort.java:328-396 | reordering only the popped range keeps row 0 in order between columns no pending range shares |
| QuickSort.DoneOrder | invisibleinktoolkit/util/QuickSort.java:334-351 | a popped range now in order drops out of the stack's obligations |
| QuickSort.PartOrder | invisibleinktoolkit/util/QuickSort.java:393-395 | a range split at the pivot keeps row 0 in order across the pivot once both halves are pushed |
| QuickSort.PendingPop | invisibleinktoolkit/util/QuickSort.java:330-332 | popping keeps the rest of the stack inside s..f and apart from the popped range |
| QuickSort.PendingSplit | invisibleinktoolkit/util/QuickSort.java:394-395 | the pushed halves stay inside s..f, overlap nothing on the stack, and the stack's weight goes down, so sort ends |
| QuickSort.SplitPending | invisibleinktoolkit/util/QuickSort.java:394-395 | the two pushed halves stay inside s..f and overlap no wide range on the stack |
| QuickSort.TogetherPush | invisibleinktoolkit/util/QuickSort.java:394-395 | two columns share a range of the pushed stack exactly when they share the new range or one below |
| QuickSort.WeightPush | invisibleinktoolkit/util/QuickSort.java:394-395 | pushing a range adds its weight |
| QuickSort.NotTogetherAcross | invisibleinktoolkit/util/QuickSort.java:328-398 | a column of the popped range shares no range with the rest of the stack |
| QuickSort.JoinSides | invisibleinktoolkit/util/QuickSort.java:193-201 | two ascending sides of a splitting pivot make one ascending range |
| QuickSort.DoneAt | invisibleinktoolkit/util/QuickSort.java:334-351 | a popped range sorted in one go leaves the rest of the stack's obligations |
| QuickSort.PartAt | invisibleinktoolkit/util/QuickSort.java:352-396 | a popped range partitioned at s2 leaves both its halves on the stack |
| QuickSort.AscendingFrom | invisibleinktoolkit/util/QuickSort.java:398 | once the stack is empty, row 0 is ascending over s..f |
| QuickSort.QuickSort.constructor | invisibleinktoolkit/util/QuickSort.java:93-102 | pivot type as PivotTypeOf says, the insertion limit as given, and a generator seeded from the clock |
| QuickSort.QuickSort.Default | invisibleinktoolkit/util/QuickSort.java:108-112 | a random pivot, no insertion sort and a generator seeded from the clock |
| QuickSort.QuickSort.DrawPivot | invisibleinktoolkit/util/QuickSort.java:233 | a column of start..finish-1 drawn by nextInt(finish - start) |
| QuickSort.QuickSort.PivotPosition | invisibleinktoolkit/util/QuickSort.java:230-248 | a random column before finish, the one of start, middle, finish holding the median key, or finish; only the random pivot moves the generator |
| QuickSort.QuickSort.Divide | invisibleinktoolkit/util/QuickSort.java:125-190 | one pass over start..finish permutes that range in every row, and either leaves it ascending or returns a pivot that splits it |
| QuickSort.QuickSort.RSort | invisibleinktoolkit/util/QuickSort.java:123-202 | rsort permutes the columns start..finish in every row by one permutation and leaves row 0 ascending there |
| QuickSort.QuickSort.SortHalves | invisibleinktoolkit/util/QuickSort.java:192-201 | the recursive calls beside the pivot leave the range ascending |
| QuickSort.QuickSort.SortBoth | invisibleinktoolkit/util/QuickSort.java:199-200 | both calls together leave the range ascending |
| QuickSort.QuickSort.SortSide | invisibleinktoolkit/util/QuickSort.java:194-200 | one recursive call sorts its side and leaves row 0 elsewhere as it was |
| QuickSort.QuickSort.Sort | invisibleinktoolkit/util/QuickSort.java:323-404 | sort permutes the columns s..f in every row by one permutation and leaves row 0 ascending there |
| QuickSort.QuickSort.Step | invisibleinktoolkit/util/QuickSort.java:328-398 | one pass of the loop keeps the stack's invariant and lowers its weight |
| QuickSort.QuickSort.Pass | invisibleinktoolkit/util/QuickSort.java:334-396 | the popped range is sorted in one go or split with both halves pushed, keeping the invariant |
| Raster.SetRGB | invisibleinktoolkit/algorithms/HideSeek.java:396-400 | `setRGB`: the pixel takes the new value, and the image keeps its size and kind (SetRGBOther: every other pixel is kept) |
| Raster.SetRGBOther | invisibleinktoolkit/algorithms/HideSeek.java:396-400 | replacing one pixel leaves every other pixel as it was |
| Raster.SetBit | invisibleinktoolkit/algorithms/HideSeek.java:169-173 | setting bit k of a word gives it the value written |
| Raster.SetBitOther | invisibleinktoolkit/algorithms/HideSeek.java:169-173 | setting bit k keeps every other bit of the word |
| Simulation.Blacken | invisibleinktoolkit/algorithms/HideSeek.java:394-402 | the blacked-out image keeps the cover's size and kind |
| StegoImage.PixelBitValue | invisibleinktoolkit/stego/StegoImage.java:129-133 | inside the image, getPixelBit is 1 exactly when the addressed bit is set |
| FPComparator.Insert | invisibleinktoolkit/algorithms/FilterFirst.java:120 | inserting into a sorted sequence adds exactly one element |
| FPComparator.InsertSorted | invisibleinktoolkit/algorithms/FilterFirst.java:120 | inserting keeps a sorted sequence sorted |
| FPComparator.SortSeq | invisibleinktoolkit/algorithms/FilterFirst.java:120 | the sorted arrangement has the same elements as its input |
| RetrievedMessage.Flush | invisibleinktoolkit/stego/RetrievedMessage.java:81-86 | writing a full buffer extends the output by the byte its eight bits spell, most significant bit first |
| RetrievedMessage.PackByte | invisibleinktoolkit/stego/RetrievedMessage.java:81-86 | eight bits pack to the one byte they spell |
| FilteredPixels.DecimalString | invisibleinktoolkit/filters/FilteredPixel.java:84 | Java's rendering of an int is non-empty and holds no space |
| FilteredPixels.DecimalInjective | invisibleinktoolkit/filters/FilteredPixel.java:84 | two ints with the same rendering are equal |
| FilteredPixels.DigitsRoundTrip | invisibleinktoolkit/filters/FilteredPixel.java:84 | the decimal digits of a natural number spell that number |
| FilteredPixels.SplitAtSeparator | invisibleinktoolkit/filters/FilteredPixel.java:84 | the " Y: " separator splits two renderings in the same place |
| Filters.GridOf | invisibleinktoolkit/filters/Laplace.java:149-171 | the masked colours the filters read, one cell per pixel |
| Filters.Masked | invisibleinktoolkit/filters/Laplace.java:149-171 | cutting every pixel down to the mask keeps the image's size and kind |
| Filters.FlatLaplace | invisibleinktoolkit/filters/Laplace.java:97-140 | on one colour, the Laplace sum of every pixel is 0 |
| Filters.FlatSobel | invisibleinktoolkit/filters/Sobel.java:95-187 | on one colour, the Sobel value of every inner pixel is 0 |
| Filters.SqrtFrom | invisibleinktoolkit/filters/Sobel.java:144 | the search for the integer square root ends at r with r * r <= n < (r + 1) * (r + 1) |
| JavaRandom.Reject | invisibleinktoolkit/util/PRandom.java:75 | the rejection loop of nextInt gives a value below the bound, or Hang |
| JavaRandom.NextIntSpecCases | invisibleinktoolkit/util/PRandom.java:75 | nextInt with a power-of-two bound scales one draw; any other bound enters the rejection loop |
| Protocol.ShiftInMsb | invisibleinktoolkit/algorithms/HideSeek.java:277 | shifting bits into an int accumulator reads them most significant first, with wrap-around |
| BPRandom.ShuffleFrom | invisibleinktoolkit/algorithms/BattleSteg.java:252-258 | the last k passes of the shuffle keep the list's length |
| BPRandom.ShuffleSwaps | invisibleinktoolkit/algorithms/BattleSteg.java:252-258 | a shuffle that succeeds is a list of swaps inside [start, end) |
| BPRandom.TopTenthAfloat | invisibleinktoolkit/algorithms/BattleSteg.java:188-197 | in a list ascending by score, the top tenth scores at least the median |
| BPRandom.ShuffledRankingIn | invisibleinktoolkit/algorithms/BattleSteg.java:145-185 | the shuffled list holds at least 20 pixels of the image |
| BPRandom.Turn | invisibleinktoolkit/algorithms/BattleSteg.java:270-316 | getShot gives a shot in bounds on an unused bit and marks exactly that bit |
| FilterFirst.DecodeBodyFails | invisibleinktoolkit/algorithms/FilterFirst.java:388-397 | a plausible header followed by a failing body shot: decode raises the picker's exception |
| FilterFirst.SimulationShotsFail | invisibleinktoolkit/algorithms/FilterFirst.java:467-485 | a message that fits but whose run of shots fails: the simulation raises the picker's exception |
| Protocol.HeaderValue | invisibleinktoolkit/algorithms/HideSeek.java:283-286 | the int decode rebuilds from the 32 header bits, bit i from the i-th bit read; HeaderRoundTrip and HeaderBitsOfValue prove it inverts the header encode writes |
| Protocol.ImageSpace | invisibleinktoolkit/algorithms/HideSeek.java:340-341 | the image's bit capacity `((W * H) * layers) * bpp` in int arithmetic; ImageSpaceExact proves it is the true product when that fits an int |
| Protocol.ImageSpaceExact | invisibleinktoolkit/algorithms/HideSeek.java:340-341 | with every partial product below 2^31, the int capacity is exactly W * H * layers * bpp |
| Protocol.MessageSpace | invisibleinktoolkit/algorithms/HideSeek.java:343 | the bits a message needs, `size * 8 + 50` in int arithmetic; MessageSpaceExact proves it is 8 * size + 50 without overflow |
| Protocol.MessageSpaceExact | invisibleinktoolkit/algorithms/HideSeek.java:343 | below 2^31 the message space is exactly 8 * size + 50 |
| Protocol.WillMessageFit | invisibleinktoolkit/algorithms/HideSeek.java:332-346 | willMessageFit: the message space is at most the image space; WillMessageFitMeaning states it without overflow |
| Protocol.BodyLength | invisibleinktoolkit/algorithms/HideSeek.java:288 | the header's size times 8 in int arithmetic, the bit count decode reads; FittingLengthIsPlausible bounds it for a fitting message |
| Protocol.Implausible | invisibleinktoolkit/algorithms/HideSeek.java:295-296 | decode's NoMessage test, a bit count negative or not below the image space; FittingLengthIsPlausible proves a fitting message passes it |
| JavaRandom.Scramble | invisibleinktoolkit/util/PRandom.java:59 | the initial state of `new Random(seed)`, the seed xor 0x5DEECE66D kept to 48 bits; its type bounds it below 2^48 |
| BlindHide.ShotAt | invisibleinktoolkit/algorithms/BlindHide.java:262-275 | getShot for counter k: null once the int bound W * H * bpp * 3 is passed, else the counter split into bit, layer, column and row; ShotInRange proves the shot is in the image |
| BlindHide.ShotRange | invisibleinktoolkit/algorithms/BlindHide.java:262-275 | the shots of calls from..to-1 are to - from shots, shot k being ShotAt of counter from + k |
| BlindHide.EncodeSpec | invisibleinktoolkit/algorithms/BlindHide.java:112-185 | encode on values: refuse a message that does not fit, else write header and body bits at consecutive shots; EncodeWrites and EncodeDecode state what it writes and that decode reads it back |
| BlindHide.DecodeSpec | invisibleinktoolkit/algorithms/BlindHide.java:197-252 | decode on values: header, plausibility test, body bits packed into bytes; EncodeDecode proves it inverts EncodeSpec |
| BlindHide.SimulationSpec | invisibleinktoolkit/algorithms/BlindHide.java:312-359 | outputSimulation on values; SimulationMatchesEncode proves it lightens exactly the pixels EncodeSpec writes |
| BlindHide.BlindHide.WillFit | invisibleinktoolkit/algorithms/BlindHide.java:286-300 | willMessageFit with this object's bit range; Encode and OutputSimulation refuse exactly the messages it rejects, leaving the message unchanged |
| HideSeek.DecodeSpec | invisibleinktoolkit/algorithms/HideSeek.java:232-321 | decode on values from the seed's shots; RoundTripUnlessHang and DecodeOfRun prove it reads back what encode wrote |
| HideSeek.HideSeek.WillFit | invisibleinktoolkit/algorithms/HideSeek.java:332-346 | willMessageFit with this object's bit range; Encode and OutputSimulation refuse exactly the messages it rejects, leaving the message unchanged |
| BPRandom.TieRange | invisibleinktoolkit/algorithms/BattleSteg.java:168-185 | the range of scores tied with the one at the top-tenth boundary, or Crash where the loop reads past the array; TieRangeIsRun and TieRangeNeedsTwenty state both cases |
| BPRandom.ApplySwaps | invisibleinktoolkit/algorithms/BattleSteg.java:255-257 | a list of swaps inside [start, start + n) keeps the list's length; ShuffleSwaps proves a successful shuffle is such a list |
| BPRandom.Shuffle | invisibleinktoolkit/algorithms/BattleSteg.java:247-259 | shufflePixels from `new Random(0)`; ShuffleFacts proves it a permutation moving nothing outside [start, end) |
| BPRandom.Passes | invisibleinktoolkit/algorithms/BattleSteg.java:252-258 | the last k passes of the shuffle loop; ShuffleIsPasses proves the shuffle is all of its passes |
| BPRandom.Median | invisibleinktoolkit/algorithms/BattleSteg.java:198 | the score `fparray[length / 2]`; TopTenthAfloat and EnginesAboveMedian prove the engines score at least it |
| BPRandom.Side | invisibleinktoolkit/algorithms/BattleSteg.java:208-231 | one neighbour check: the cell when inside the image and scoring at least the median; EscortsBySide builds the escorts from four of them |
| BPRandom.Escorts | invisibleinktoolkit/algorithms/BattleSteg.java:204-231 | the neighbours of an engine that become ships; EscortsBySide and EscortsSurviveWrites state what they are and that writes below the filter keep them |
| BPRandom.EngineShips | invisibleinktoolkit/algorithms/BattleSteg.java:204-233 | an engine's escorts, plus the engine itself when it has one; Fleets lists them engine by engine |
| BPRandom.Union | invisibleinktoolkit/algorithms/BattleSteg.java:193-235 | the ships marked by the first n engines; UnionWitness proves each lies in one engine's fleet |
| BPRandom.UnionWitness | invisibleinktoolkit/algorithms/BattleSteg.java:193-235 | a cell of the union lies in one of the sets, whose index the lemma returns |
| BPRandom.ShipsOf | invisibleinktoolkit/algorithms/BattleSteg.java:193-235 | mShips for a given shuffled list; ShipsOfSurvive proves writes below the filter do not move it |
| BPRandom.ShipsOfSurvive | invisibleinktoolkit/algorithms/BattleSteg.java:107-108 | writes at bit positions up to end leave the ships of a list unchanged |
| BPRandom.ShipsSpec | invisibleinktoolkit/algorithms/BattleSteg.java:145-237 | generateShips: mShips or the failure that ends the constructor; ShipsAboveMedian and ShipsSurviveWrites state what the ships are and that encode's writes keep them |
| BPRandom.InGrid | invisibleinktoolkit/algorithms/BattleSteg.java:279 | the shot indexes `beenShot` inside its bounds; Hunt fails with Crash on a shot outside them, as the array access throws, and ensures every shot it returns fits the image |
| BPRandom.Aimed | invisibleinktoolkit/algorithms/BattleSteg.java:278-303 | the shot's layer and bit position are ones the generator draws; Ranged and Volley ensure every shot is aimed |
| BattleSteg.DecodeSpec | invisibleinktoolkit/algorithms/BattleSteg.java:535-599 | decode on values with the generator on the stego image; DecodeOfRun proves it reads back a completed encode |
| BattleSteg.BattleSteg.WillFit | invisibleinktoolkit/algorithms/BattleSteg.java:610-624 | willMessageFit with this object's bit range; Encode and OutputSimulation refuse exactly the messages it rejects, leaving message and filter unchanged |
| FilterFirst.Ranking | invisibleinktoolkit/algorithms/FilterFirst.java:102-122 | generateList: the scored pixels in comparator order; RankingCoversImage proves every pixel of the image is listed and RankingSurvivesWrites that encode's writes keep the list |
| FilterFirst.ListShots | invisibleinktoolkit/algorithms/FilterFirst.java:135-148 | the first n shots of the picker over a ranking; PickerUsable proves they exist, lie inside the image, hit distinct addresses and stay in the writable bits |
| FilterFirst.EncodeOn | invisibleinktoolkit/algorithms/FilterFirst.java:254-329 | encode over a given ranking; EncodeWrites states what it writes where |
| FilterFirst.DecodeOn | invisibleinktoolkit/algorithms/FilterFirst.java:341-401 | decode over a given ranking; EncodeDecode proves it inverts encode |
| FilterFirst.SimulationOn | invisibleinktoolkit/algorithms/FilterFirst.java:438-490 | outputSimulation over a given ranking; SimulationMatchesEncode and SimulationShowsShots relate it to encode's shots |
| FilterFirst.EncodeSpec | invisibleinktoolkit/algorithms/FilterFirst.java:254-329 | encode with the ranking of the cover; EncodeDecode proves decode reads the file back |
| FilterFirst.DecodeSpec | invisibleinktoolkit/algorithms/FilterFirst.java:341-401 | decode with the ranking of the stego image; EncodeDecode proves it inverts EncodeSpec |
| FilterFirst.SimulationSpec | invisibleinktoolkit/algorithms/FilterFirst.java:438-490 | outputSimulation with the ranking of the cover; the OutputSimulation method is proved to compute it |
| FilterFirst.FilterFirst.WillFit | invisibleinktoolkit/algorithms/FilterFirst.java:412-426 | willMessageFit with this object's bit range; Encode and OutputSimulation refuse exactly the messages it rejects, leaving the message unchanged |
| DynamicFilterFirst.KeepCount | invisibleinktoolkit/algorithms/DynamicFilterFirst.java:90-110 | `numpix + 1`, the number of pixels generateList keeps; KeepCountMeaning proves a message of that many bits fits in that many pixels of 3 * bpp bits, and that the count is positive exactly for a size above -(3 * bpp) |
| DynamicFilterFirst.Scan | invisibleinktoolkit/algorithms/DynamicFilterFirst.java:127-153 | generateList's top-K scan over the pixels; ScanShape proves the kept set is a Selection, sorted and drawn from the scanned pixels |
| DynamicFilterFirst.Selection | invisibleinktoolkit/algorithms/DynamicFilterFirst.java:127-153 | what the kept set holds: sorted, min(scanned, size) pixels from the scanned ones, all of them while no more were scanned; SelectionStep proves one scan step keeps it |
| DynamicFilterFirst.EncodeOn | invisibleinktoolkit/algorithms/DynamicFilterFirst.java:303-378 | encode with a given score test; EncodeWrites, EncodeErrors and EncodeDecode state its writes, its failures and the round trip |
| DynamicFilterFirst.DecodeOn | invisibleinktoolkit/algorithms/DynamicFilterFirst.java:390-465 | decode with a given score test; EncodeDecode proves it inverts encode under the comparator's test or untied scores |
| DynamicFilterFirst.SimulationOn | invisibleinktoolkit/algorithms/DynamicFilterFirst.java:502-555 | outputSimulation with a given score test; SimulationShowsShots and SimulationMatchesEncode relate it to encode's shots |
| DynamicFilterFirst.DynamicFilterFirst.WillFit | invisibleinktoolkit/algorithms/DynamicFilterFirst.java:476-490 | willMessageFit with this object's bit range; Encode and OutputSimulation refuse exactly the messages it rejects, leaving message and filter unchanged |
| FilteredPixels.ToString | invisibleinktoolkit/filters/FilteredPixel.java:83-85 | `"X: " + x + " Y: " + y`; ToStringIdentifiesPosition proves it shows exactly the position |

## Left out

- HideSeek.HideSeek.Encode: LSB matching (`mLSBMatch` with `matchPixelBit` and `aran.nextBoolean()`) is not modelled; only `setPixelBit` embedding is. `matchPixelBit` belongs to CoverImage, which is not part of this model.
- BlindHide.BlindHide.Encode: no LSB matching, for the same reason.
- FilterFirst.FilterFirst.Encode: no LSB matching, for the same reason.
- DynamicFilterFirst.DynamicFilterFirst.Encode: no LSB matching, for the same reason.
- BattleSteg.BattleSteg.Encode: no LSB matching, for the same reason.
- HideSeek.Resample: the Java redraw loop (HideSeek.java:157-163) has no bound. The model stops after `MAX_REDRAWS` = 2^48 redraws with `Hang`. Whether a real generator ever needs that many is not proved.
- HideSeek.Pick: bounded the same way, through HideSeek.Resample, as are HideSeek.DrawFree, HideSeek.SkipTaken and HideSeek.Redraw, the methods that run the redraw loop.
- BPRandom.Hunt: the redraw loop of BattleSteg's getShot (BattleSteg.java:298-305) has no bound in Java. The model stops it after `MAX_REDRAWS` redraws with `Hang`.
- JavaRandom.Reject: `nextInt`'s rejection loop has no bound in Java. The model stops it after `MAX_DRAWS` = 2^48 draws with `Hang`.
- JavaRandom.Random.NextInt: bounded the same way, through JavaRandom.Reject.
- HideSeek.EncodeDecode: requires encode to succeed. Once the fit check passes, the only failure this excludes is the `Hang` of the redraw bound. HideSeek.RoundTripUnlessHang states the condition as "encode does not return `Hang`".
- BattleSteg.EncodeDecode: requires encode to succeed. Beyond the fit check, this excludes the failures of BPRandom:
  - the `Hang` of the redraw bound, or of `nextInt` in shufflePixels;
  - a cover of fewer than 20 pixels, where generateShips reads past its array (BPRandom.TieRangeNeedsTwenty);
  - a cover of 2^31 pixels or more;
  - a ranged shot whose `nextInt` bound is not positive (`IllegalArgumentException`);
  - a shot outside the `beenShot` array (`Crash`).
- HideSeek.EncodeDecode: requires 8·|file| + 50 < 2^31 and W·H·24 < 2^31. Java evaluates these products in 32-bit `int` arithmetic, and the model does not follow encode and decode through their wrap-around.
- BattleSteg.EncodeDecode: the same two overflow bounds.
- BlindHide.EncodeDecode: requires 8·|file| + 50 < 2^31 and that the image's address count W·H·3·bpp is below 2^31.
- FilterFirst.EncodeDecode: the same two bounds as BlindHide.EncodeDecode.
- DynamicFilterFirst.EncodeDecode: the same two bounds as BlindHide.EncodeDecode.
- FilterFirst.FilterFirst.Encode: requires W·H < 2^31 (`Addressable`), since a `BufferedImage` keeps its pixels in one Java array.
- FilterFirst.FilterFirst.Decode: the same requirement.
- FilterFirst.FilterFirst.OutputSimulation: the same requirement.
- FilterFirst.GenerateList: the same requirement.
- Filters.FilterValue: `Filter` is an interface in Java, implemented by `Laplace` and `Sobel` (and by `Prewitt`, which is not part of this model). Here it is one class dispatching on `FilterKind`, because the model uses no traits.
- Filters.ISqrt: Sobel's `(int)Math.sqrt(...)` in floating point is modelled as the integer square root. The two agree on Sobel's operands, which are below 2^22.
- FilterFirst.GenerateList: the `System.exit(0)` in the handler of the picker's constructor (FilterFirst.java:89) is not modelled. Under `Addressable` (W·H < 2^31), generateList cannot throw once the filter's image is set, so that handler is never reached.
- DynamicFilterFirst.GenerateList: the `System.exit(0)` in the handler of the picker's constructor (DynamicFilterFirst.java:113) is modelled as `Failure(Crash)`. Here generateList can throw: `first()` on an empty sorted set.
- DynamicFilterFirst.DynamicFilterFirst.Decode: a failure in the body loop is `Failure(Crash)`. Java catches it, closes the retrieved message, which writes the bits read so far to the output file, and then exits (DynamicFilterFirst.java:456-461). That partial output is not modelled.
- BattleSteg.BPRandom.New: the `System.exit(0)` at BattleSteg.java:134 is modelled as a failed `Result` carrying the error generateShips raised.
- HideSeek.HideSeek.Encode: Java writes every bit into the cover's own `BufferedImage` through CoverImage (HideSeek.java:169, 197) and returns a `StegoImage` over that same image (HideSeek.java:218). So the cover is changed, also by the bits written before an exception, and it shares its pixels with the result. The model takes the cover as a value, leaves it unchanged and returns a new image.
- BlindHide.BlindHide.Encode: the same in-place write into the cover is not modelled (BlindHide.java:140, 165, 183).
- FilterFirst.FilterFirst.Encode: the same in-place write into the cover is not modelled (FilterFirst.java:285, 309, 327).
- DynamicFilterFirst.DynamicFilterFirst.Encode: the same in-place write into the cover is not modelled (DynamicFilterFirst.java:335, 358, 376).
- BattleSteg.BattleSteg.Encode: the same in-place write into the cover is not modelled (BattleSteg.java:479, 503, 520).
- HideSeek.HideSeek.OutputSimulation: Java paints the simulation into the cover's own `BufferedImage` (HideSeek.java:395-401), so the cover is lost. The model returns a fresh image and leaves the cover unchanged.
- BlindHide.BlindHide.OutputSimulation: the same aliasing is not modelled (BlindHide.java:327).
- FilterFirst.FilterFirst.OutputSimulation: the same aliasing is not modelled (FilterFirst.java:458).
- DynamicFilterFirst.DynamicFilterFirst.OutputSimulation: the same aliasing is not modelled (DynamicFilterFirst.java:523).
- BattleSteg.BattleSteg.OutputSimulation: the same aliasing is not modelled (BattleSteg.java:658).
- QuickSort.QuickSort.Sort: the array is an `array2`, so its rows all have the same length. Java's `int[][]` may be ragged. A range outside the array is required away; there Java throws, and `sort` catches the exception, prints and exits (QuickSort.java:399-402).
- QuickSort.QuickSort.RSort: a random pivot's draw can `Hang` (see JavaRandom.Reject), so rsort returns a `Result`. Ranges outside the array are required away, as for Sort.
- QuickSort.QuickSort.Divide: its insertion branch (QuickSort.java:142-144 and 349-351) runs the corrected QuickSort.InsertionSort, not insertionSort as written. As written, on a range of three or more columns whose row 0 is out of order, the shift `sarray[k] = sarray[k-1]` (QuickSort.java:298-300) moves whole rows. It then throws `ArrayIndexOutOfBoundsException` or leaves rows aliasing one another (see Findings).
- QuickSort.QuickSort.RSort: its contract holds for the corrected insertionSort only. With useInsertion ≥ 2, Java's rsort reaches the as-written shift, and the exception or the row aliasing comes out of rsort.
- QuickSort.QuickSort.Sort: its contract holds for the corrected insertionSort only. With useInsertion ≥ 3, Java's sort reaches the as-written shift. An exception there goes to the `catch`, which prints and exits (QuickSort.java:399-402).
- QuickSort.printArray writes to standard output and is not modelled.
- The clock that seeds QuickSort's generator is a constructor parameter (QuickSort.QuickSort.constructor).
- File I/O is not modelled. `InsertableMessage` reads a byte sequence given to its constructor, and `RetrievedMessage` appends to a byte sequence in place of an output file. Paths, `IOException`s from the file system and `printStackTrace` are out.
- CoverImage is not part of this model. Its `setPixelBit` is modelled as Raster.SetPixelBit: the addressed bit takes the new value and nothing else changes.
- Getters and setters that only read or assign one field are not modelled: `setLSBMatch`, `getFilter`, `setFilter`, and those of `FilteredPixel`. Neither are `openConfigurationWindow` and `explainMe`, which are user-interface code.
- DynamicFilterFirst.DynamicFilterFirst.constructor: takes the `Rule` that the Java class does not have (see Findings). `ByScore` is the Java behaviour.

## Findings

| source | as written | input that shows it | evidently intended | confidence | as-written member | corrected member |
|---|---|---|---|---|---|---|
| invisibleinktoolkit/util/QuickSort.java:298-300 | insertionSort's shift loop runs `sarray[k] = sarray[k-1]`. It moves whole rows, by reference, where it means to move column entries within row `t`. On an array with fewer rows than columns this indexes past the last row. | Rows {1, 2, 0} and {10, 20, 30}, sorted over columns 0..2. This call is made by rsort whenever useInsertion ≥ 2. Column 2 belongs first, so the shift runs `sarray[2] = sarray[1]` on a two-row array: ArrayIndexOutOfBoundsException. | move the entries of row `t`, `sarray[t][k] = sarray[t][k-1]`, so that every row is permuted by the same column permutation and row 0 ends ascending | not executed | QuickSort.InsertionSortAsWrittenCrashes | QuickSort.InsertionSort |
| invisibleinktoolkit/algorithms/DynamicFilterFirst.java:140-142 | The top-K scan replaces the kept minimum only on a strictly greater score. With ties, the K pixels kept are the first ones scanned. Encode keeps K from 8·size + 32 bits (lines 315-320), while decode's header picker keeps K from 50 bits (lines 394-399). So with ties the two kept lists are not prefixes of one order. | A cover of one colour, one bit per colour (start = end), a one-byte message and W·H ≥ 17. Every pixel scores 0. Encode keeps 14 pixels and writes all 40 bits there, while decode's header picker keeps 17. Decode's first header shot therefore lands on a pixel that none of encode's shots wrote. | keep the top K in `FPComparator`'s order, which breaks ties by position, so that a smaller K keeps a prefix of a larger K's list and decode reads the bits encode wrote | not executed | DynamicFilterFirst.HeaderMissedOnFlatImage | DynamicFilterFirst.EncodeDecode (with `ByComparator`) |
