# Base58: a verified model

The codec has one meaning and about ten algorithms. The meaning is in `Base58.dfy`: leading zero
bytes become leading `1`s, and the rest is a big-endian number rewritten in base 58 (`Encoding`); a
string over the alphabet is read back the same way (`Decoding`). Everything else is an algorithm the
program picks by input size, and each one is proved to return exactly that.

How the files fit together:

- `Radix`, `Words`, `Sizes` hold the theory: powers, the value of a digit string, canonical digits and
  their uniqueness, machine words as bounded integers (storing into one is an obligation that nothing
  wraps), and how many digits of one radix a number of digits of another needs. `Sequences` and
  `Slices` are about parts of buffers.
- `Alphabet` and `Base58` hold the specification and the central law: a string decodes to `b` exactly
  when it is the encoding of `b`.
- `Tables`, `ByteCounts` and `Lookup` are the constant tables. Every row of the four radix matrices is
  proved to be the power it stands for and every column to leave the room it needs; the byte-count
  guards are exact; the inverse tables are what `init` leaves.
- Encoding: `Chars` (five characters per limb), `Division` (the chained-division reference),
  `Matrix` and `Carry` (matrix kernels and carry propagation), `Fixed` (32 and 64 bytes),
  `SmallMatrix` (9 to 32 bytes), `Convolve` and `BlockRadix` (64-byte blocks folded into a base-58^5
  number), `Encode` (dispatch), `Batch` (four interleaved inputs over one buffer).
- Decoding: `DigitGroups`, `BigEndian`, `DecodeVariable` (base-2^64 limbs), `DecodeFixed` (32 and 64
  bytes), `Large` (divide and conquer with shared powers), `Decode` (guards and dispatch).
- `FusedCarry`, `Encode32Kernel` and `AdcChain` are the scalar sections of four assembly kernels.
- `Codec` starts from the program's own initialisers and runs both directions in turn.

Loops over buffers are methods on arrays and state what the buffer holds afterwards. A slice that is
appended to is an array with a length (`Slices`), its capacity being the array's. `math/big` integers
are a class with a mutable number. The tail encoders write towards the end of a buffer, so they take
the end of their slice, `hi`, and a bound `lo` that no write goes below. Row bounds of the 64-byte
tables are computed by `Matrix.RowBounds` and passed on as the parameter `bounds`; the package-level
powers of 58 are built by `Large.InitPowers` and passed on as `base`. `Encode` and `Decode` are the
methods `Encode.EncodeBytes` and `Decode.DecodeString`. An append states the whole buffer it was
given: the bytes in use stay, and how far past them it may write (`Sequences.SameOutside`).

Where the program and its own comments differ, the program is followed: the comment above
`encodeVariableTail` (encode.go:33) speaks of blocks of 10 digits, the loop writes 20. With the
sentinel 255 in place of a digit no word of the decoders wraps, so even a group that is about to be
rejected has an exact value; behind the pair table of decode32Generic, whose sentinel is 0xffff, it
is only certain to fit its word.

## Model

| member | source | states |
|---|---|---|
| Codec.EncodeThenDecode | fuzz_test.go:130-147 | the whole program: after initialisation, Decode of what Encode returns is the input, for every byte string |
| Codec.DecodeThenEncode | decode.go:18-28 | the whole program: Encode of what Decode returns is the input, for every string over the alphabet, and every other string is rejected |
| Codec.Init | tables.go:98-136 | initialisation establishes the row bounds and shared powers that the methods below take as parameters |
| Codec.AppendTwice | encode.go:213-255 | two values appended to one prefix: both results are the prefix followed by the encoding, and the caller's prefix is as before, whether or not the buffer had to grow |
| Codec.DecodeSideBySide | decode.go:72-114 | two keys decoded into neighbouring parts of one buffer, the later part first: neither call disturbs the other part |
| Base58.DecodeOfEncode | fuzz_test.go:130-147 | Decode(Encode(b)) = b for every byte string |
| Base58.EncodeOfDecode | decode.go:18-28 | Encode(Decode(s)) = s for every string that decodes |
| Base58.DecodesToIffEncodes | decode.go:408-411 | a string decodes to b if and only if it is the encoding of b; in particular exactly one `1` stands for each leading zero byte |
| Base58.EncodingIsValid | encode.go:10-12 | an encoding has only alphabet characters, one leading `1` per leading zero byte, and the value of its input |
| Base58.IsEncodingOf | encode.go:10-12 | these three facts single out the encoding: a string is Encode(b) if and only if it has them |
| Base58.EncodingOrder | tables.go:26-31 | of two encodings of one length the one that comes first in the dictionary is that of the smaller number |
| Base58.EncodingLengthOrder | tables.go:26-31 | an encoding shorter than that of bytes without a leading zero is that of a smaller number |
| Base58.KnownEncodings | base58_test.go:364-365 | bytes 626262 encode to a3gV and 636363 to aPEr |
| Alphabet.AlphabetIs | tables.go:26-31 | a character is valid if and only if it is an ASCII digit or letter other than 0, O, I and l |
| Alphabet.DigitOrder | tables.go:26-31 | of two valid characters the one with the smaller ASCII code has the smaller digit |
| Alphabet.ValueIsDictionaryOrder | tables.go:26-31 | valid strings of one length are ordered by value as by dictionary |
| Fixed.EncodingLength | decode.go:22-27 | n bytes give at least n characters and fewer than 1.375 n + 1, so 32-44 for 32 bytes and 64-88 for 64 |
| Alphabet.InverseOfChar | tables.go:89-92 | the inverse table gives back the digit of every alphabet character |
| Alphabet.InverseRejects | tables.go:22-24 | the sentinel 255 is given only to characters that spell no digit |
| Lookup.InitInverse | tables.go:98-107 | the init loops leave the inverse table equal to the inverse function at all 256 bytes |
| Lookup.InitInversePairs | tables.go:108-115 | the nested init loops leave each of the 65536 entries d0*58+d1, or 0xffff when either character is invalid |
| Tables.EncRow32 | tables.go:41-51 | row j of encTable32 is 2^(32*(7-j)) in base 58^5 |
| Tables.EncRow64 | tables.go:53-71 | row j of encTable64 is 2^(32*(15-j)) in base 58^5 |
| Tables.DecRow32 | tables.go:138-149 | row j of decTable32 is 58^(5*(8-j)) in base 2^32 |
| Tables.DecRow64 | tables.go:151-171 | row j of decTable64 is 58^(5*(17-j)) in base 2^32 |
| Tables.EncColumns | tables.go:53-71 | every column of encTable64 fits 64 bits in halves with room for a carry, and as a whole except column 15 |
| Tables.DecColumns | matmul64_generic.go:41-43 | every column of decTable64 times limbs below 58^5 leaves 2^33 free |
| Matrix.RowBounds | tables.go:116-135 | the bounds loop finds for every row a window outside of which all entries are zero, and no smaller one |
| Matrix.ProductValue | tables.go:41-42 | a matrix whose rows are the powers of one radix written in another turns digits of the first into columns of the same value |
| Matrix.EncodeMatMul32 | matmul_other.go:9-19 | fills nine cells with columns of the value of the input, without wrapping |
| Matrix.EncodeMatMul64 | matmul64_generic.go:12-39 | the row-bounded product with the mini-reduction fills eighteen cells with the columns Inter64, without wrapping |
| Matrix.Inter64Value | matmul64_generic.go:12-39 | those columns, mini-reduction included, denote the 64-byte input |
| Matrix.Inter64Fits | matmul64_generic.go:9-11 | after the mini-reduction every column leaves room for a carry |
| Matrix.MiniReductionNeeded | matmul64_generic.go:27-29 | without it column 15 exceeds 64 bits on sixteen words 0xFFFFFFFF |
| Matrix.EncodeMatMul64Split | matmul_amd64.go:119-135 | head rows plus the shifted 32-byte product leave the same eighteen columns |
| Matrix.DecodeMatMul32 | matmul_other.go:21-27 | for limbs below 58^5 the loops fill eight cells with the exact column sums |
| Matrix.DecodeMatMul64 | matmul64_generic.go:44-52 | for limbs below 58^5 the row-bounded loops fill sixteen cells with the exact column sums |
| Matrix.DecodeMatMul64Split | matmul_amd64.go:97-109 | the head plus the shifted 32-byte product leave the same sixteen columns |
| Matrix.Bin64Value | tables.go:151-152 | the decode columns in base 2^32 denote the same number as the limbs in base 58^5 |
| Matrix.Bin64Fits | matmul64_generic.go:41-43 | column sum plus incoming carry stays below 2^64 for all limbs below 58^5 |
| Carry.PropagateInPlace | encode.go:514-520 | the carry loop turns columns into the unique n limbs below 58^5 of the same value |
| Carry.LimbsSuffice | tables.go:8-12 | 2^256 < 58^45 and 2^512 < 58^90, so 9 and 18 limbs are enough |
| Chars.ExtractChars5 | encode.go:435-442 | writes the five characters that spell the limb, and nothing else |
| Chars.DigitCount5IsLength | encode.go:446-460 | the thresholds give the number of canonical digits |
| Chars.RoomForBlock | encode.go:133-139 | encodeVariableSize has room for the digits of n bytes rounded up to the next block of 5 or 20 |
| Chars.SizeOnInt32 | encode.go:136-139 | computed in 32-bit ints the size is the same if and only if there are at most 15561475 bytes, and negative one byte later |
| Division.SweepStep | encode.go:83-95 | one limb through the four stacked divisions keeps quot*58^20 + rem4*58^15 + rem3*58^10 + rem2*58^5 + rem1 |
| Division.DivideLimb | encode.go:83-85 | the quotient of each stacked division fits 32 bits |
| Division.Sweep | encode.go:81-96 | a whole sweep divides the limb array by 58^20 in place, leaving the four remainders |
| Division.EncodeVariableTail | encode.go:40-131 | terminates with exactly the canonical digits at the end of the buffer and writes nothing below its bound |
| Division.EncodeSmallTail | encode.go:143-165 | the single-word form writes the same digits |
| SmallMatrix.SubInterValue | encode_block.go:70-97 | the bottom-right w-by-w submatrix with w+1 slots denotes the number of the w words |
| SmallMatrix.SubInterFits | encode_block.go:88-97 | its accumulators never overflow and leave room for the carry |
| SmallMatrix.Triangle4IsSubmatrix | encode_block.go:124-128 | the twelve constants of the unrolled 4-word case are that submatrix |
| SmallMatrix.EncodeSmallMatrix4Tail | encode_block.go:114-149 | the unrolled case writes the canonical digits; after its single test for a zero the top limb is non-zero |
| SmallMatrix.EncodeSmallMatrixTail | encode_block.go:70-112 | the submatrix path writes the canonical digits for every non-zero-led input of up to 32 bytes |
| SmallMatrix.EncodeMatrixTail | encode_block.go:48-64 | right-aligning in 32 or 64 zero bytes and using the full matrix writes the canonical digits |
| Convolve.P512Value | encode_block.go:9-16 | the eighteen constants are 2^512 in base 58^5 |
| Convolve.ConvRowValue | encode_block.go:266-295 | the convolution of the state with those constants has the value state * 2^512 |
| Convolve.ConvFits | encode_block.go:266-295 | no column of the convolution reaches 2^63 |
| Convolve.ConvolveRows | encode_block.go:268-275 | the row-major branch fills tmp with the convolution for every count |
| Convolve.ConvolveColumns | encode_block.go:276-295 | the three-part column-major branch fills tmp with the same cells |
| Convolve.MulP512IsColumn | encode_block.go:310-330 | the spelled-out dot product is the middle column of the convolution |
| BlockRadix.ReduceColumns | encode_block.go:332-340 | limbs of the same value come out, and the carry dropped at the end is zero |
| BlockRadix.HornerStep | encode_block.go:244-258 | state becomes state*multiplier + chunk, trimmed, inside the buffer |
| BlockRadix.FoldBlock | encode_block.go:262-306 | one block turns the state into state*2^512 + block; count+18 limbs are inside the buffer |
| BlockRadix.AbsorbBlocks | encode_block.go:260-308 | all blocks: the state is the number of all bytes consumed |
| BlockRadix.NeedIsEnough | encode_block.go:24-27 | for every length the limb bound is at least 11/40 of the bytes and leaves 18 limbs for each block besides those of the head |
| BlockRadix.StateHasRoom | encode_block.go:24-27 | so with j blocks to go the state has at most need - 18*j limbs, and count+18 stays inside |
| BlockRadix.StateFitsOutput | encode_block.go:198-208 | five characters per limb never reach below the output slice |
| BlockRadix.EncodeDigits5Tail | encode_block.go:198-208 | the characters from the first significant one on are the canonical digits |
| BlockRadix.EncodeBlockTail | encode_block.go:23-42 | for every non-zero-led input the block path writes exactly the canonical digits |
| Fixed.Encode32Render | encode.go:472-506 | the length computed from the top limb is that of the encoding, at most 44, and the window of raw is the encoding |
| Fixed.Encode32 | encode.go:261-273 | a 32-byte input gives its encoding, 32 to 44 characters |
| Fixed.AppendEncode32 | encode.go:293-310 | appends the encoding, in place if and only if it fits; then writes nothing past the returned length, otherwise leaves the whole old buffer alone; the caller's own bytes never change |
| Fixed.Encode64Parts | encode.go:511-537 | normalised limbs, exact length of at most 88 and its parts |
| Fixed.Encode64Write | encode.go:541-556 | writing each character at its final position gives the encoding and touches nothing else |
| Fixed.Encode64 | encode.go:276-282 | a 64-byte input gives its encoding, 64 to 88 characters |
| Fixed.AppendEncode64 | encode.go:314-330 | the same for 64 bytes |
| Encode.EncodeLargeTail | large.go:25-44 | remapping math/big's digits to the alphabet in place gives the canonical digits |
| Encode.PaddedFixedTail | encode_block_amd64.go:38-53 | encoding the zero-padded 64 bytes, dropping one character per padding byte and copying to the end of out leaves the canonical digits there, nothing below its bound |
| Encode.EncodeTail | encode.go:168-182 | whichever tier is chosen the same canonical digits are written |
| Encode.EncodeVariable | encode.go:186-211 | any input of any length gives its encoding |
| Encode.EncodeBytes | encode.go:17-28 | Encode returns the encoding of every byte string: the valid string of its value with one leading `1` per leading zero byte |
| Encode.AppendEncode | encode.go:218-255 | returns dst followed by the encoding; the caller's own bytes do not change, nothing from dst's end plus Reach on is written, and the buffer is reused if and only if that much room is there |
| Encode.ReachBound | encode.go:242-251 | Reach is at least the length of the encoding and at most 1.38 times the input plus 20 |
| Batch.RawSkip | batch.go:146-184 | the slot has at least as many leading `1`s as there are zero bytes, and dropping the difference leaves the encoding |
| Batch.EncodeRaw | encode.go:335-369 | a slot of 45 or 90 characters ends with the encoding |
| Batch.PropagateFour | batch.go:60-75 | four interleaved carry chains give the limbs of four separate ones |
| Batch.ExtractFlat | chars_other.go:19-29 | five characters per limb, slot after slot, nothing before the first |
| Batch.EncodeRawX4 | batch.go:49-78 | four consecutive slots spell the four inputs |
| Batch.EncodeBatch | batch.go:12-40 | for every batch length string i is the encoding of input i; later iterations keep earlier strings |
| Batch.ViewsDisjoint | batch.go:18-21 | strings of one batch share no characters of the buffer |
| DigitGroups.OrAllSmall | tables.go:89-92 | the or of a run of digits is below 64 exactly when every character is valid |
| DigitGroups.SentinelBound | decode.go:180-197 | even with sentinels n characters have a value below 5 * 58^n, so no group wraps |
| DigitGroups.HornerGroup | decode.go:208-217 | the digit loop computes the group's value and remembers an invalid character |
| DecodeVariable.Multiplier | decode.go:116-124 | m20Hi and m20Lo are 58^20 in two words |
| DecodeVariable.GroupTwenty | decode.go:176-201 | two halves of ten give the exact two-word value of twenty characters |
| DecodeVariable.MulAddLimb | decode.go:231-245 | one limb: l*58^20 + carry is the new limb plus 2^64 times a carry that is again below 58^20 |
| DecodeVariable.FoldGroup | decode.go:231-253 | work becomes work*58^20 + group with a non-zero top limb |
| DecodeVariable.ScratchSuffices | decode.go:142-145 | n*733/1000+1 bytes of limbs hold the value of every prefix, so limbs[top] and limbs[top+1] are in bounds |
| DecodeVariable.FoldString | decode.go:163-255 | succeeds if and only if every character is valid, and then the limbs are the value of the string |
| BigEndian.ByteLength | decode.go:257-258 | (Len64 + 7) / 8 is the number of significant bytes |
| DecodeVariable.WriteLimbs | decode.go:273-283 | the bytes written are the minimal big-endian bytes of the value |
| DecodeVariable.AppendDecodeLimbs | decode.go:163-285 | dst, then the zeros, then the minimal bytes, writing nothing else; ErrInvalidChar exactly when a character is outside the alphabet, dst then unchanged |
| DecodeFixed.ReadGroups64 | decode.go:334-363 | groups of five characters give limbs of the string's value if and only if all characters are valid |
| DecodeFixed.ReadGroups32 | decode.go:293-320 | the same with two pair lookups and their high-bit sentinel |
| DecodeFixed.PropagateWords | decode.go:393-398 | 32-bit carries keep the value, everything above 32 bits ends in bin[0] |
| DecodeFixed.WriteColumns | decode.go:393-405 | the verdict is true if and only if the value fits, and then dst is exactly its bytes |
| DecodeFixed.Decode64Write | decode.go:390-406 | decode64WriteSlow: true iff the value of the limbs is below 2^512, and then its 64 bytes |
| DecodeFixed.ValidateLeadingZeros | decode.go:412-430 | an error exactly when the counts of leading `1`s and of zero bytes differ |
| DecodeFixed.FixedErrors | decode.go:318-326 | for every string and width: ErrInvalidLength, ErrInvalidChar, ErrValueTooLarge and ErrLeadingZeros each exactly when its condition holds and no earlier one does |
| DecodeFixed.Decode32 | decode.go:287-327 | ErrInvalidLength iff the length is 0 or above 45; ErrInvalidChar iff in range with an invalid character; ErrValueTooLarge iff valid and 2^256 or more; ErrLeadingZeros iff it fits but the leading `1`s do not match its zero bytes; otherwise dst is the 32 bytes the string encodes |
| DecodeFixed.Decode64 | decode.go:329-370 | the same for 90 characters, 2^512 and 64 bytes |
| DecodeFixed.AcceptsExactlyEncodings | decode_fused_other.go:5-19 | Decode32 and Decode64 succeed with b if and only if b has 32 (64) bytes and the string is its encoding, for every length up to 45 (90) |
| ByteCounts.TablesAreExact | tables.go:33-39 | entry k is the byte length of 58^(k-1) and of 58^k - 1 |
| Decode.GuardSkipsOnlyFailures | decode.go:42-67 | whenever a fast path would succeed its length and byte-count guard lets it run |
| Decode.FastPathAgrees | decode.go:18-27 | a fast path that succeeds returns what the general decoder would |
| Decode.Attempt | decode.go:48-57 | a guarded attempt yields a value if and only if the fast path would succeed unguarded |
| Decode.AppendDecodeVariable | decode.go:135-161 | either side of the large threshold appends Decode of the string |
| Decode.DecodeString | decode.go:28-70 | Decode of a valid string returns the bytes it encodes, and every other string gives ErrInvalidChar and no other error |
| Decode.AppendDecode | decode.go:77-114 | dst followed by Decode of the string, in place if and only if it fits and then writing only between the old and the new end; or Decode's error with dst unchanged |
| Large.InitPowers | large.go:14-20 | the eleven shared integers are 58^0 to 58^10 |
| Large.PowerMemo.Power | large.go:102-116 | returns 58^e; every memo entry stays the power of its key, is never replaced, and new ones are new objects |
| Large.Leaf | large.go:118-137 | Horner over groups of ten gives the value of a leaf, false iff a character is invalid |
| Large.Tree | large.go:79-100 | terminates with the value of the string in a new integer that no memo entry refers to, so Mul and Add in place corrupt no shared power |
| Large.AppendDecodeLarge | large.go:46-74 | dst, the zeros and the minimal bytes, writing nothing else, or ErrInvalidChar with dst unchanged |
| FusedCarry.MagicDivision | matmul_avx2_amd64.s:596-608 | high64(v * 0x68b2c7ad1a016ab5) >> 28, and with the doubled constant >> 29, is v / 58^5 for every 64-bit v |
| FusedCarry.SequentialCarry | matmul_avx2_amd64.s:946-963 | the register loop, over any number of cells, leaves the limbs of the Go carry loop |
| Encode32Kernel.PairReciprocal | matmul_avx2_amd64.s:516-539 | ((x >> 1) * 0x9bda4125) >> 42 is x / 3364 for every limb, in 64 bits, and one more shift halves it |
| Encode32Kernel.Render5 | matmul_avx2_amd64.s:516-539 | the macro writes the five characters extractChars5 writes |
| Encode32Kernel.RenderColumns | matmul_avx2_amd64.s:596-691 | nine limbs reduced and rendered in one chain: the 45 characters spell the value of the columns |
| Encode32Kernel.SecondCharacter | matmul_avx2_amd64.s:693-702 | with a non-zero first byte one or two characters are skipped, and the second character tells which |
| Encode32Kernel.Append32 | matmul_avx2_amd64.s:592-738 | from the columns to dst: exactly the encoding, its length returned, nothing written past it |
| FusedCarry.FullColumnsFit | encode_full_amd64.s:79-80 | of the columns without mini-reduction only column 16 can wrap, and each of its halves fits |
| FusedCarry.HighChain | encode_full_amd64.s:166-198 | chain 17..9, column 16 reduced in two halves |
| FusedCarry.LowChain | encode_full_amd64.s:199-217 | chain 8..1 on its own |
| FusedCarry.Patch | encode_full_amd64.s:218-229 | the carry folded into limbs 8 and 7 leaves at most one to ripple |
| FusedCarry.Ripple | encode_full_amd64.s:324-342 | the conditional one-unit ripple keeps the value, and the comparison at limb 0 never fires: the carry out is zero |
| FusedCarry.SplitCarry | encode_full_amd64.s:166-229 | the two chains with fold and ripple give the unique 18 limbs of the value |
| FusedCarry.FusedLimbs | encode_full_amd64.s:157-229 | for every 64-byte input these are the limbs of the sequential loop |
| AdcChain.Chain | decode_fused_amd64.s:369-386 | low half plus next high half plus carry flag, word by word, splits the value of any number of columns into their bytes and what is above them |
| AdcChain.FusedWrite | decode_fused_amd64.s:98-117 | same verdict and same bytes as the portable decode32WriteSlow and decode64WriteSlow |
| AdcChain.Finish | decode_fused_amd64.s:369-409 | from valid characters to the outcome of Decode32 or Decode64, with the shortcut around the leading-zero check: too large iff the value does not fit, ErrLeadingZeros iff it fits and the counts differ, otherwise the bytes the string encodes |

## Left out

- Slices.Extend: growing allocates exactly what is needed, also where Go's append takes more; minEncodedCap of appendEncode32GenericCapacity and allocation counts are not modelled.
- DecodeVariable.AppendDecodeLimbs: the choice between scratch arrays of 24, 66 and 128 limbs and the heap is not modelled, only their used length; likewise for encodeBlockTail and encodeVariableTail.
- Batch.EncodeBatch: the 32- and 64-byte versions are one method with 9 or 18 limbs per input, and strings are windows of the buffer instead of unsafe strings.
- Encode.EncodeLargeTail: math/big is taken at its word: SetBytes gives the number, Append its canonical digits in the characters 0-9, a-z, A-Z.
- Large.AppendDecodeLarge: the prefix is cleared also when the buffer is new, where the program relies on fresh memory being zero.
- FusedCarry.HighChain: the repeated STEP macro is a loop, and the vector registers the limbs are packed into are an array; likewise the unrolled chains of Encode32Kernel and AdcChain.
- Encode.PaddedFixedTail: the vector encoder it calls is replaced by the portable 64-byte encoder.
- FusedCarry.FusedLimbs: the vector multiplication is not modelled; its columns are the precondition.
- Chars.EncodeVariableSize: Go's int is unbounded here; on a 64-bit platform no slice is long enough to matter, and Chars.SizeOnInt32 says exactly when a 32-bit platform agrees. The same holds for the other lengths and positions.
- Encode32Kernel.Append32: the vector multiplication is not modelled; its columns are the precondition.
- AdcChain.Finish: the vector conversion of characters to limbs and its multiplication are not modelled; their results are the precondition.
- The assembly bodies of the matrix products, digit-to-character kernels, scans for leading zeros, CPU detection and build tags.
- The vector convolution of encode_block_amd64.s.
- encode_full_append_amd64.s and encode_full_owned_amd64.s, whose carry sections repeat encode_full_amd64.s.
- EncodeCached32: its cache entries are immutable, and the property can be read off one function.
- Overlap of src and dst given by a caller; they are taken to be disjoint.
- Timing, allocation counts and escape analysis.
