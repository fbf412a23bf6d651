# Verified model of the boot loader's algorithms

A Dafny model of six algorithmic parts of the boot loader, each written in the form of its source (in-place
methods on arrays and objects where the C code works in place) and proved against an independent definition
of what it is for.

| part | source | modules |
|---|---|---|
| AES-128 | `boot/common/aes.c` | `Gf256`, `ColumnMixing`, `SubstitutionBox`, `IteratedCipher`, `AesSpec`, `KeySchedule`, `Aes` |
| CRC-16 and CRC-32 | `boot/common/libimg.c` | `Gf2Poly`, `WordBits`, `Checksum` |
| generator and rejection sampler | `boot/common/simulation_key.c` | `SimulationKey` |
| 64/32 division, decimal printers | `boot/common/jz_serial.c`, `boot/common/debug.c` | `Division`, `Decimal` |
| LCD text console | `boot/lcd/lcd.c`, `include/lcd.h`, `boot/libc/memcpy.c`, `boot/libc/memset.c` | `Terminal`, `LcdConsole`, `Memory` |
| TLB set-up, image sizes and lookup | `boot/common/tlb.c`, `boot/common/libimg.c`, `boot/common/xbootimg.c` | `Tlb`, `Bitwise`, `BootImage`, `XbootImage` |

`MachineInt` holds the 32-bit conventions the parts share.

## How the parts are built

Each definition is tied to the numbers, array cells and C operators of the source by lemmas that do not use it, so
that the round, the key schedule, the draws, each console character, the glyph pixels and the TLB entries are stated twice.

- **AES.** `Gf256` defines multiplication of bytes as polynomial multiplication reduced by
  x^8+x^4+x^3+x+1, with the same long division (`Gf2Poly.Remainder`) that defines the checksums, and shows that
  the program's shift-and-add loop computes it for every multiplier below 16. `ColumnMixing` gets the inverse mixing
  matrix from the doublings of the column bytes and the sums in which they cancel. `SubstitutionBox` relates both 256-entry
  tables to each other and ties them to the affine map over the field inverse. `IteratedCipher` is the induction over rounds that run in
  opposite order, for any layers with inverses. `AesSpec` states each
  round byte by byte. `Aes` holds the methods on the state, the key schedule and the caller's buffer.
- **Checksums.** The reference is schoolbook division of bit strings by the polynomial with its leading one;
  `RemainderIsResidue` shows that this is the remainder of a multiple-plus-residue decomposition. The
  bit-serial register and the table are two refinements of it. Machine words are bit strings with the C
  operators, so the results hold for the code's own constants: 0x8005 and 0x04C10DB7. The latter is **not** the polynomial of
  IEEE 802.3 (its x^12 term is absent), and nothing here says it is.
- **Sampler.** The loop of `random` ends because the generator has period 2^16. That is proved from the closed form
  of the n-th state and the power of two dividing 1 + A + ... + A^(n-1).
- **Console.** `Terminal` is a grid of characters with a cursor. `LcdConsole` is a framebuffer of 32-bit
  pixels. Every operation is proved to leave exactly the pixels of the grid after the same character, and every other pixel alone.
  `Memory` has the byte loops of memcpy and memset and what they do to whole pixels.
- **TLB.** The table is read by the rules of a MIPS32 TLB (page mask, even and odd page, frame number), which are
  stated for any page mask and know nothing of the program.

## What does not hold of the code, and exactly when it does

- `serial_put_dec` takes its digit count from a signed copy: it prints the right digits exactly for
  d <= 2^32 - 10^9, a larger range than 2^31 (`Decimal.SerialPutDecCorrectIff`). The first number
  it misprints is 3294967297, which prints as 294967297 (`Decimal.SerialPutDecMisprints`).
- `dump_dec` indexes its digit table below its start for every d >= 2^31 (`Decimal.DumpDec`).
- A tab moves to the next multiple of eight on the line exactly from columns 16k to 16k+7 and when that multiple,
  16k+8, is on the line; otherwise it goes back, stays or starts the next line (`Terminal.TabIsNextStopIff`;
  columns 15, 8 and 96 of 100 in `Terminal.TabMisses`).
- A backspace after a character returns to it unless the character made the screen scroll (`Terminal.BackspaceReturnsIff`).
- The guard of `lcd_putc` is an unsigned subtraction: it also passes for panels of fewer than 32 lines
  (`LcdConsole.Console.HasRoomIff`; 31 lines in `LcdConsole.Console.SmallPanelPasses`).
- Scrolling clears the last row with `memset`, which gives the background colour exactly when its four bytes are equal
  (`LcdConsole.FilledIff`; red gives black in `LcdConsole.RedFillsBlack`). The two colours `lcd_clear` sets, 0 and 0xffffffff, are such.
- `calculate_size` equals the documented page count exactly when that fits in an `int`, for page sizes that are
  powers of two (`BootImage.CalculateSizeCorrectIff`; a kernel of 2^31 bytes in `BootImage.SizeTurnsNegative`), and those
  are the only page sizes for which its mask is right (`BootImage.PageSizeIff`; pages of 3 bytes in `BootImage.OddPageSize`).
- The read of `get_image` is above the image size exactly when the sum with the page size does not wrap
  (`XbootImage.ReadCoversIff`; it is 0 for 0xfffffe00 bytes in `XbootImage.ReadWraps`).
- `Cipher_len` counts the NUL of an empty text, so it encrypts one block even then (`Aes.Counted`); `InvCipher_len`
  decrypts nothing when its size is 2^31 or more, since it becomes negative (`Aes.KeyStore.InvCipherLen`).
- The loop of `random` ends exactly when max < 2^32 - 1, min <= max and min < 65536 (`SimulationKey.LoopEndsIff`); for
  max = 2^32 - 1 the modulus max + 1 is zero (`SimulationKey.LargestMaxFails`).

## Model

| member | source | states |
|---|---|---|
| `Gf256.FFmul` | boot/common/aes.c:55-77 | the result is the field product of b by the four low bits of a, where the product is defined by polynomial division |
| `Gf256.Doubles` | boot/common/aes.c:60-68 | entry k of bw is the remainder of the polynomial b times x^k |
| `Gf256.MulIsScale` | boot/common/aes.c:55-77 | shift-and-reduce multiplication gives the remainder of the polynomial product by x^8+x^4+x^3+x+1, for all 256 x 256 operands |
| `Gf256.ScaleAdditive` | boot/common/aes.c:55-77 | multiplication is additive in its second operand |
| `Gf256.ScaleDouble` | boot/common/aes.c:60-68 | multiplication by any byte commutes with multiplication by x |
| `Gf256.FourTerms` | boot/common/aes.c:55-77 | the product by a multiplier below 16 is the sum of b and its first three doublings selected by its bits |
| `Gf256.LowTermsAreScale` | boot/common/aes.c:69-75 | the sum over the four tested bits is multiplication by a & 15 |
| `ColumnMixing.InvMixUndoesMix` | boot/common/aes.c:108-126 | the byte of InvMixColumns applied to a mixed column is the original byte, for every column |
| `ColumnMixing.MixUndoesInvMix` | boot/common/aes.c:169-187 | and the other way round |
| `ColumnMixing.MixByteIs` | boot/common/aes.c:120-123 | the mixed byte is twice the first byte, three times the second and the other two, added; twice is the shift with 0x1b when the top bit is lost |
| `SubstitutionBox.InvSboxOfSbox` | boot/common/aes.c:15-53 | InvSbox undoes Sbox on every byte |
| `SubstitutionBox.SboxOfInvSbox` | boot/common/aes.c:15-53 | Sbox undoes InvSbox on every byte |
| `SubstitutionBox.SboxIsAffineInverse` | boot/common/aes.c:15-33 | every table entry is y added to its rotations by 1, 2, 3 and 4 and 0x63, for the field inverse y of its index (FIPS 197 section 5.1.1) |
| `SubstitutionBox.SboxExamples` | boot/common/aes.c:15-33 | three entries by value, among them the example of FIPS 197 |
| `IteratedCipher.InverseUndoesCipher` | boot/common/aes.c:202-246 | rounds run in reverse with inverse layers undo rounds run forward, with mixing left out at opposite ends |
| `IteratedCipher.CipherUndoesInverse` | boot/common/aes.c:202-246 | and the other way round |
| `AesSpec.InvCipherUndoesCipher` | boot/common/aes.c:189-257 | InvCipher undoes Cipher on every state under any eleven round keys, expanded or not |
| `AesSpec.CipherUndoesInvCipher` | boot/common/aes.c:189-257 | Cipher undoes InvCipher on every state under any eleven round keys |
| `AesSpec.FirstRoundAt` | boot/common/aes.c:202 | before the rounds, every byte of the state has the byte of round key 0 added by ^ |
| `AesSpec.MiddleRoundAt` | boot/common/aes.c:204-210 | in rounds 1 to 9 every byte is the mix of four substituted bytes of shifted rows, and the byte of round key i added by ^ |
| `AesSpec.LastRoundAt` | boot/common/aes.c:204-210 | in round 10 it is the substituted byte of the shifted row and the byte of round key 10, not mixed |
| `AesSpec.LastKeyShows` | boot/common/aes.c:202-210 | two keys that differ only in round key 10 give outputs that differ by the same bytes |
| `Aes.SubBytes` | boot/common/aes.c:79-89 | the array holds the substituted state |
| `Aes.ShiftRows` | boot/common/aes.c:91-106 | row r of the array is rotated left by r, cell by cell |
| `Aes.MixColumns` | boot/common/aes.c:108-126 | every column of the array is the field product of the mixing matrix and the old column |
| `Aes.InvSubBytes` | boot/common/aes.c:140-150 | the array holds the state through the inverse table |
| `Aes.InvShiftRows` | boot/common/aes.c:152-167 | row r of the array is rotated right by r, cell by cell |
| `Aes.InvMixColumns` | boot/common/aes.c:169-187 | every column of the array is the field product of the inverse matrix and the old column |
| `Aes.KeyStore.AddRoundKey` | boot/common/aes.c:128-138 | every byte of the array is the old one ^ that of round key k of w |
| `Aes.KeyStore.CipherState` | boot/common/aes.c:202-210 | the round loop computes the cipher of FIPS 197 section 5.1 for whatever w holds |
| `Aes.KeyStore.InvCipherState` | boot/common/aes.c:236-246 | the round loop computes the inverse cipher of section 5.3 |
| `Aes.KeyStore.Cipher` | boot/common/aes.c:189-221 | encrypts sixteen bytes in place, column by column, and leaves the rest of the buffer alone |
| `Aes.KeyStore.InvCipher` | boot/common/aes.c:223-257 | decrypts sixteen bytes in place and leaves the rest alone |
| `Aes.StateByte` | boot/common/aes.c:191 | the state read from the array has the byte of row r and column c there |
| `Aes.KeyStore.KeyByte` | boot/common/aes.c:202-209 | round key i read from w has the byte of w[i], row r and column c there |
| `Aes.BlockByte` | boot/common/aes.c:194-200 | byte 4c + r of the block is in row r, column c of the state, both ways |
| `Aes.CipherBlockAt` | boot/common/aes.c:189-257 | the bytes of an encrypted or decrypted block are those of the (inverse) cipher of its state |
| `Aes.KeyStore.KeyExpansion` | boot/common/aes.c:259-297 | w becomes the schedule of FIPS 197 section 5.2 for the key, whatever it held: round key 0 is the key, and each later column is the one before ^ the same column of the round key before |
| `Aes.KeyStore.RotateTemp` | boot/common/aes.c:283-289 | the in-place loop is RotWord, SubWord and the round constant |
| `Aes.KeyStore.NextColumns` | boot/common/aes.c:277-280 | the recurrence on w for the columns after the first of a round key |
| `Aes.KeyStore.FirstColumn` | boot/common/aes.c:281-294 | a first column is that of the round key before ^ its last column rotated by one row and substituted, and the constant 0x01 to 0x36 in row 0 |
| `Aes.RoundConstants` | boot/common/aes.c:263 | the ten constants are the powers of x in the field |
| `KeySchedule.RoundKeyDeterminesKey` | boot/common/aes.c:272-296 | two keys that agree on any one round key are equal, so one round key determines all eleven |
| `KeySchedule.WordBack` | boot/common/aes.c:291-294 | the recurrence run backwards: word i - 4 from words i and i - 1 |
| `Aes.KeyStore.Strlen` | boot/libc/strlen.c:29-34 | the index of the first NUL |
| `Aes.KeyStore.CipherLen` | boot/common/aes.c:299-315 | expands the key and encrypts exactly the blocks that begin before the end of the text, or the first when it is empty; all other bytes are untouched |
| `Aes.KeyStore.InvCipherLen` | boot/common/aes.c:317-328 | expands the key and decrypts exactly the blocks that begin before input_size, read as a signed int; all other bytes are untouched |
| `Aes.KeyStore.EncryptThenDecrypt` | boot/common/aes.c:299-328 | encrypting and then decrypting with the same key restores the whole buffer, for any length and prior w |
| `Aes.DecryptedEncrypted` | boot/common/aes.c:299-328 | the same on buffers, under any eleven round keys and number of blocks |
| `Gf2Poly.RemainderIsResidue` | boot/common/libimg.c:42-105 | long division is right: r is the remainder of d if and only if d is a multiple of the polynomial plus r |
| `Gf2Poly.SerialIsRemainder` | boot/common/libimg.c:51-58 | the shift register, from any start, leaves the remainder of the message and register divided bit by bit |
| `Gf2Poly.TableStep` | boot/common/libimg.c:71 | feeding a chunk equals shifting the register and adding the checksum of its top part plus the chunk |
| `Gf2Poly.BurstDetected` | boot/common/libimg.c:65-105 | messages that differ only inside a window as long as the polynomial have different checksums, if its low bit is one |
| `Gf2Poly.TrailerTheorem` | boot/common/libimg.c:65-105 | a message and trailer check to zero if and only if the trailer is the checksum |
| `Gf2Poly.CrcParity` | boot/common/libimg.c:65-105 | a polynomial with an odd number of low terms keeps the parity of the message |
| `Gf2Poly.CrcLinear` | boot/common/libimg.c:65-105 | checksums are linear under xor |
| `Gf2Poly.UnitMessage` | boot/common/libimg.c:65-105 | the checksum of the message 1 is the polynomial |
| `Checksum.ChecksumTable.BuildEntry16` | boot/common/libimg.c:49-58 | the inner loop gives the checksum of the one-byte message i |
| `Checksum.ChecksumTable.BuildTable16` | boot/common/libimg.c:42-61 | every entry of the shared table, whatever it held |
| `Checksum.ChecksumTable.BuildEntry32` | boot/common/libimg.c:83-92 | the same for 32 bits |
| `Checksum.ChecksumTable.BuildTable32` | boot/common/libimg.c:76-95 | the same for 32 bits |
| `Checksum.ChecksumTable.Accumulate16` | boot/common/libimg.c:68-72 | the byte loop over a correct table gives the remainder of message times x^16, for any polynomial |
| `Checksum.ChecksumTable.Accumulate32` | boot/common/libimg.c:100-104 | the same with x^32 |
| `Checksum.ChecksumTable.Crc16` | boot/common/libimg.c:65-73 | the remainder of the message times x^16 by 0x8005, for any prior table |
| `Checksum.ChecksumTable.Crc32` | boot/common/libimg.c:97-105 | the remainder of the message times x^32 by 0x04C10DB7, for any prior table |
| `Checksum.LookUpStep` | boot/common/libimg.c:71 | one table look-up is eight steps of the register |
| `Checksum.ShiftIsFeed` | boot/common/libimg.c:53-57 | the test-and-shift of the inner loop is one step of the register |
| `Checksum.CodedConstants` | boot/common/libimg.c:31-35 | the two polynomials are 0x8005 and 0x04C10DB7 |
| `Checksum.CodedPolynomials` | boot/common/libimg.c:31-35 | both have low bit one and an odd number of bits |
| `Checksum.WindowDetected` | boot/common/libimg.c:65-105 | equal-length messages that differ only inside two (CRC_16) or four (CRC_32) consecutive bytes have different checksums |
| `Checksum.ParityKept` | boot/common/libimg.c:65-105 | the parity of the checksum is that of the message |
| `Checksum.OddFlipsDetected` | boot/common/libimg.c:65-105 | an odd number of flipped bits changes the checksum |
| `Checksum.TrailerChecksToZero` | boot/common/libimg.c:65-105 | two or four appended bytes make the checksum zero if and only if they are the big-endian checksum |
| `Checksum.XorOfMessages` | boot/common/libimg.c:65-105 | the checksum of the xor of two messages is the xor of their checksums |
| `Checksum.Interleaved` | boot/common/libimg.c:37-105 | a 32-bit checksum between two 16-bit ones through the same shared table disturbs neither, and is right itself |
| `SimulationKey.Draws` | boot/common/simulation_key.c:19-26 | each draw is (25173 r + 13849) mod 65536 of the one before |
| `SimulationKey.ClosedForm` | boot/common/simulation_key.c:23 | the k-th state is the first plus a geometric sum times the first step, modulo 65536 |
| `SimulationKey.GeometricValuation` | boot/common/simulation_key.c:23 | a power of two divides the geometric sum of k terms exactly when it divides k |
| `SimulationKey.FullPeriod` | boot/common/simulation_key.c:19-26 | from every state, k draws return to it if and only if k is a multiple of 65536 |
| `SimulationKey.NoRepeat` | boot/common/simulation_key.c:19-26 | no state comes up twice within 65536 draws |
| `SimulationKey.EveryValueDrawn` | boot/common/simulation_key.c:19-26 | every sixteen-bit value comes up within 65536 draws |
| `SimulationKey.NoOverflow` | boot/common/simulation_key.c:23 | the 32-bit product and sum do not wrap |
| `SimulationKey.AcceptedIs` | boot/common/simulation_key.c:32-34 | a draw passes when max + 1 does not wrap and the draw modulo max + 1 is at least min |
| `SimulationKey.LoopEndsIff` | boot/common/simulation_key.c:32-34 | from every state the loop ends if and only if max + 1 does not wrap, min <= max and min < 65536 |
| `SimulationKey.LargestMaxFails` | boot/common/simulation_key.c:32-34 | for max = 2^32 - 1 the modulus is zero and no draw passes, even with min = 0 |
| `SimulationKey.Generator.RandomFun` | boot/common/simulation_key.c:19-26 | the static state and the result become (25173 r + 13849) mod 65536; the 32-bit arithmetic does not wrap |
| `SimulationKey.Generator.Random` | boot/common/simulation_key.c:28-40 | ends within 65536 draws with a value in [min, max], that of the first accepted draw |
| `Division.DoDiv6432` | boot/common/jz_serial.c:34-69 | with high < base, the register loop gives quotient and remainder of high:low, the 33rd bit included |
| `Division.DoDiv` | boot/common/jz_serial.c:71-95 | n = q * base + r with r < base for every 64-bit n and nonzero 32-bit base |
| `Division.ShiftPass` | boot/common/jz_serial.c:46-50 | the shifts keep quotient times base plus remainder equal to the dividend read so far, with the bit shifted out as carry |
| `Division.SubtractPass` | boot/common/jz_serial.c:52-58 | the wrapping subtraction, taken on carry or on no borrow, keeps it and leaves a remainder below base |
| `Decimal.SerialPutDec` | boot/common/jz_serial.c:265-282 | the text is as many low digits of d as its signed copy has, and a newline, for every 32-bit d |
| `Decimal.SerialPutDecCorrectIff` | boot/common/jz_serial.c:270-278 | that is the decimal notation if and only if d <= 2^32 - 10^9 |
| `Decimal.SerialPutDecMisprints` | boot/common/jz_serial.c:270-278 | the first failing number, 3294967297, prints as 294967297 |
| `Decimal.DumpDec` | boot/common/debug.c:37-58 | the text is the decimal notation exactly for d < 2^31; from there on the digit table is read out of bounds |
| `Decimal.PrintersAgree` | boot/common/debug.c:37-58 | below 2^31 both printers send the same digits |
| `Decimal.SendDigit` | boot/common/debug.c:48-55 | one pass sends digit i of the number and leaves the number without it, or reads the digit table out of bounds when the number is negative as an int and the digit is not zero |
| `Decimal.CountDigits` | boot/common/debug.c:43-45 | the number of digits of the magnitude |
| `Decimal.ParseNotation` | boot/common/debug.c:37-58 | reading the notation back gives the number |
| `Decimal.NoLeadingZero` | boot/common/debug.c:37-58 | the notation is digits only and starts with zero only for zero |
| `Decimal.ParseLowDigits` | boot/common/jz_serial.c:274-278 | reading the k low digits of d gives d modulo 10^k |
| `MachineInt.SignedIs` | boot/common/debug.c:41 | an unsigned int in an int is the number of that range equal to it modulo 2^32 |
| `Terminal.Step` | boot/lcd/lcd.c:77-109 | every character keeps the grid's shape and the cursor on it; what it does is in the next five rows |
| `Terminal.ReturnIs` | boot/lcd/lcd.c:86-87 | a carriage return moves the cursor to column 0 and nothing else |
| `Terminal.LineFeedIs` | boot/lcd/lcd.c:63-74 | a line feed goes to column 0 of the next row with the cells as they were, and on the last row moves every line up by one and leaves a blank one |
| `Terminal.TabIs` | boot/lcd/lcd.c:90-96 | a tab goes to column 8 of its block of sixteen, or does what a line feed does when that is not on the line |
| `Terminal.BackspaceIs` | boot/lcd/lcd.c:49-61 | a backspace puts a space in the cell before the cursor and goes there: the end of the row above from column 0, the end of the first row from the top left |
| `Terminal.PrintableIs` | boot/lcd/lcd.c:99-106 | any other character changes the cell at the cursor and no other; the cursor moves on, with a line feed at the end of the line |
| `Terminal.FeedStart` | boot/lcd/lcd.c:111-119 | no character changes nothing |
| `Terminal.FeedNext` | boot/lcd/lcd.c:111-119 | i + 1 characters are the step of the last one after the first i |
| `Terminal.TextAppears` | boot/lcd/lcd.c:99-106 | printable text of any length appears in reading order across line ends, and after scrolling the screen shows the last lines of that page; it scrolls exactly when the text does not end before the last cell |
| `Terminal.BackspaceReturnsIff` | boot/lcd/lcd.c:49-61 | a backspace returns the cursor unless the character before it made the screen scroll |
| `Terminal.BackspaceErases` | boot/lcd/lcd.c:49-61 | it then leaves a space there and all else as it was |
| `Terminal.TabIsNextStopIff` | boot/lcd/lcd.c:90-96 | a tab reaches a multiple of eight, the next one of the line exactly from columns 16k to 16k+7 with 16k+8 on the line |
| `Terminal.TabKeepsText` | boot/lcd/lcd.c:90-96 | a tab changes no cell unless it wraps on the last row |
| `Terminal.TabMisses` | boot/lcd/lcd.c:90-96 | on 100 columns, column 15 goes back, column 8 stays and column 96 starts the next line |
| `Terminal.TabBits` | boot/lcd/lcd.c:91-92 | bit by bit the stop is the column with 8 set and 7 cleared |
| `Terminal.LineFeedsScroll` | boot/lcd/lcd.c:63-74 | n line feeds on the last row move all lines up by n and bring in blank ones |
| `LcdConsole.Console.DrawChars` | boot/lcd/lcd.c:125-160 | the rectangle shows the font bits of the characters; every other pixel is as before |
| `LcdConsole.Console.InkIs` | boot/lcd/lcd.c:138-150 | pixel k of line r of a character is foreground if bit 7 - k of font byte 16 c + r is set, else background |
| `LcdConsole.Console.CellShown` | boot/lcd/lcd.c:125-180 | in every legal state, each of the 128 pixels of every cell, by framebuffer index, has the colour of the font bit of its character, or the background |
| `LcdConsole.Console.MarginShown` | boot/lcd/lcd.c:125-180 | the pixels right of the last column have the background colour |
| `LcdConsole.Console.GridFits` | include/lcd.h:145-153 | the grid has as many rows of 16 lines below the logo and columns of 8 pixels as fit |
| `LcdConsole.Console.PutcAt` | boot/lcd/lcd.c:174-180 | drawing one glyph refines the update of one cell |
| `LcdConsole.Console.ConsoleSizes` | include/lcd.h:154-160 | the row and console sizes are those of the pixel lines |
| `Memory.Memcpy` | boot/libc/memcpy.c:29-37 | the byte loop moves the old bytes, also down into an overlapping area, and no others |
| `Memory.Memset` | boot/libc/memset.c:37-42 | the byte loop fills the area and no other byte |
| `Memory.CopiedPixels` | boot/lcd/lcd.c:43-44 | a byte copy of whole pixels moves the pixels |
| `Memory.FilledPixels` | boot/lcd/lcd.c:45 | a byte fill of whole pixels makes each of them four equal bytes |
| `LcdConsole.Console.Memcpy` | boot/lcd/lcd.c:43-44 | the copy of whole pixels down into an overlapping area moves the old ones, as `Memory.CopiedPixels` shows of the byte loop |
| `LcdConsole.Console.ScrollUp` | boot/lcd/lcd.c:40-47 | the two memory operations refine dropping the first line and adding a blank one |
| `LcdConsole.Console.NewLine` | boot/lcd/lcd.c:63-74 | pixels and cursor after a new line are those of the grid |
| `LcdConsole.Console.Back` | boot/lcd/lcd.c:49-61 | the same for a backspace |
| `LcdConsole.Console.Putc` | boot/lcd/lcd.c:77-109 | pixels and cursor after any character are those of the grid after one step; logo and surroundings keep their pixels; nothing happens when off or without room |
| `LcdConsole.Console.Puts` | boot/lcd/lcd.c:111-119 | the same for a whole string up to its NUL; the memory before and after the console area is untouched |
| `LcdConsole.Console.HasRoomIff` | boot/lcd/lcd.c:82-83 | the guard passes exactly when two rows fit below the logo, or the panel has fewer than 32 lines |
| `LcdConsole.Console.SmallPanelPasses` | boot/lcd/lcd.c:82-83 | a panel of 31 lines with a logo of 120 passes |
| `LcdConsole.Console.GlyphNeedsRoom` | boot/lcd/lcd.c:82-83 | without room for a row below the logo, the last line of any glyph lies beyond the screen |
| `LcdConsole.Console.Clear` | boot/lcd/lcd.c:194-200 | every pixel of the screen has the background colour |
| `LcdConsole.Console.Initialize` | boot/lcd/lcd.c:259-273 | column 0 of row 1 of a blank grid, a legal state |
| `LcdConsole.FilledIff` | boot/lcd/lcd.c:45 | memset repeats the low byte of the colour, which gives that colour if and only if its four bytes are equal |
| `LcdConsole.RedFillsBlack` | boot/lcd/lcd.c:45 | a red background is filled with black |
| `Tlb.SetupTlb` | boot/common/tlb.c:17-57 | the 32 entries are those of the running additions |
| `Tlb.WrittenIsProgrammed` | boot/common/tlb.c:53-55 | after k additions the registers hold the entry of page pair k, by value, flags undisturbed |
| `Tlb.CachedWritableIs` | boot/common/tlb.c:20-22 | the flags are cache attribute 3, D, V and G |
| `Tlb.HitsOnce` | boot/common/tlb.c:17-57 | every address from 0xc0000000 on matches exactly one entry, and no other address matches any |
| `Tlb.HitTranslates` | boot/common/tlb.c:17-57 | the match translates to the address less 0xa0000000, through a page that is cached, writable, valid and global |
| `Tlb.ImageIsBelow` | boot/common/tlb.c:17-57 | the physical addresses an address gets are that one, or none |
| `Tlb.OneToOne` | boot/common/tlb.c:16 | physical addresses lie in 0x20000000 to 0x5fffffff and come from one address each |
| `Tlb.Onto` | boot/common/tlb.c:16 | every address of that range is reached |
| `Bitwise.MaskIsFloor` | boot/common/libimg.c:19-20 | masking a wrapped sum with the complement of 2^k - 1 rounds down to a multiple of 2^k |
| `Bitwise.BitOfIs` | boot/common/libimg.c:19-20 | bit k of n is n / 2^k modulo 2 |
| `Bitwise.AndBits` | boot/common/libimg.c:19-20 | the recursive definition of & works bit by bit |
| `Bitwise.NotBits` | boot/common/libimg.c:19-20 | the subtraction that defines ~ works bit by bit |
| `BootImage.PaddedIsPages` | boot/common/libimg.c:17-20 | the mask gives the pages of include/boot_img.h times the page size, in the width of a word |
| `BootImage.PagesCover` | include/boot_img.h:67-68 | the documented pages hold the part and less than a page more |
| `BootImage.PaddedBits` | boot/common/libimg.c:17-20 | for every page size, each bit of the padded size is that of the wrapped sum unless set in page_size - 1 |
| `BootImage.CalculateSizeIsSum` | boot/common/libimg.c:26 | for every page size the result is the int equal to the sum of both parts modulo 2^32 |
| `BootImage.CalculateSizeCorrectIff` | boot/common/libimg.c:7-27 | the size is that of the documented n + m pages if and only if it fits in an int |
| `BootImage.PageSizeIff` | include/boot_img.h:67-68 | padding meets the documented formula for all sizes if and only if the page size is a power of two |
| `BootImage.SizeTurnsNegative` | boot/common/libimg.c:7-27 | a kernel of 2^31 bytes in pages of 2048 comes out as -2^31 |
| `BootImage.OddPageSize` | boot/common/libimg.c:17-20 | one byte in pages of three is padded to one instead of three |
| `XbootImage.GetImage` | boot/common/xbootimg.c:13-32 | the first matching descriptor among the signed count decides; the offset is (image_base + image_offset) pages modulo 2^32 and the size that of the descriptor; not found exactly when none matches |
| `XbootImage.ReadIsPages` | boot/common/xbootimg.c:23 | the read is the whole pages of the image and one more |
| `XbootImage.ReadSizeBits` | boot/common/xbootimg.c:23 | for every page size, each bit of the read size is that of the wrapped sum unless set in the page size less one |
| `XbootImage.ReadCoversIff` | boot/common/xbootimg.c:23 | it is above the image size by at most a page if and only if the sum does not wrap |
| `XbootImage.ReadWraps` | boot/common/xbootimg.c:23 | for 0xfffffe00 bytes in pages of 512 nothing is read |

## Left out

- `get_public_bin_from_msc`, the efuse reads and `rsa_verify.c`: storage, hardware and library calls not shown here.
- The copy of the key into a local buffer in `KeyExpansion`: its result is never read.
- The CCITT polynomial: the table and register theorems hold for any polynomial, but no code uses this one.
- `Aes.KeyStore.CipherLen`: buffers of 2^31 bytes and more, for which the signed index would overflow, are excluded.
- `Aes.KeyStore.EncryptThenDecrypt`: the key lies outside the text buffer; encrypting over one's own key is not described.
- `SimulationKey.Generator.Random`: inputs for which the loop does not end (`LoopEndsIff`) are excluded, among them max = 2^32 - 1, where the C code divides by zero. The GPIO loops that call it are not modelled, nor its serial output.
- `Division.DoDiv`: base = 0, for which the processor's result is undefined.
- `Decimal.DumpDec`: when the digit table is read out of bounds the run ends with ok = false, since what follows depends on memory outside the array.
- The carriage return that `serial_putc` may insert, and the hex printers: fixed-width loops.
- `LcdConsole.Console.Putc`: for panels of fewer than 32 lines, where the guard passes by wrap-around, nothing is claimed: the glyph is then written beyond the screen (`GlyphNeedsRoom`). The panel is at least one character wide, resolutions are below 2^16 and the visible framebuffer below 2^31 bytes, so that the line offsets stay ints.
- `LcdConsole.Console.Puts`: the same panels.
- `LcdConsole.Console.Memcpy`: moves whole pixels of an array of pixels; that the byte loop does so is in `Memory`, whose array of bytes is not the same object.
- `LcdConsole.Console.ScrollUp`: the console address is taken to be the one that `lcd_logo` returns (boot/lcd/lcd.c:409); the assignment itself is commented out at boot/lcd/lcd.c:261.
- The console covers the 32-bit pixel format with the logo above the text. Font data, logo height (120 in boot/lcd/bmp_logo.h) and colours are parameters; drawing the logo and cache flushes are left out.
- `Tlb.SetupTlb`: the write of 0xa9000000 to a vendor register, the wired register and the hazard no-ops.
- `XbootImage.GetImage`: allocation and the read itself; the offset and size asked of the medium are the result. The page size is 512 or that of the NAND chip (include/xbootimg.h:10-14), a parameter here.
- `BootImage.CalculateSize`: the messages and hex output; the sum of two ints is taken to wrap as the processor does. A zero page size is excluded.
- Some inner loops are methods of their own (`BuildEntry16`, `RotateLeft`, `StoreRow`, `MixColumnAt`, `NextColumn`, `AddTerm`, `DrawLine`, `PutNext`, `FillDigits`, `SendDigit`), with the loop order of the source; `Substitute` is the loop that both table substitutions share, and `SubShift` and `MixAdd` are the two halves of a round.
- PMU drivers, UART and GPIO set-up, LCD panel tables and the charging loops: register plumbing.
