# Verified model of the blockchain node and its vendored components

This project models, in Dafny, the logic of a small blockchain node written in C++ (its chain of blocks, the exchange of
chains and blocks between nodes, the table of connected servers and the protocol by which servers find each other), the
SHA-256 implementation it hashes blocks with, and three Boost components vendored with it: the CRC engines, the integer
and decimal conversions of lexical_cast, and two tokenizers. `dafny verify dfyconfig.toml` checks all of it.

## How it is laid out

| files | component |
|---|---|
| `BitWords.dfy` | machine words as bit sequences, lowest bit first |
| `CrcSpec.dfy`, `CrcEngines.dfy`, `CrcOptimal.dfy`, `CrcDivision.dfy`, `CrcResidue.dfy` | polynomial division, the bit-by-bit engine and the table, the table-driven and the augmented engine, the division identity, what a receiver checks |
| `Sha256Spec.dfy`, `Sha256Constants.dfy`, `Sha256.dfy`, `Sha256Numbers.dfy`, `Sha256Recurrence.dfy` | FIPS 180-4, its constants from the primes, the streaming class, what words and texts are worth, the rounds as recurrences |
| `MachineArithmetic.dfy`, `DecimalText.dfy`, `LexicalCast.dfy`, `GroupedReader.dfy`, `DecimalScanner.dfy`, `ScannerGroups.dfy`, `ScannerLists.dfy` | overflow tests, digit text with groups, the integer conversions, the groups the reader accepts, the mantissa scanner, the groups it accepts |
| `Block.dfy`, `Blockchain.dfy`, `Balances.dfy`, `Node.dfy`, `Network.dfy` | blocks, chains, when balances are exact, the handlers of one node, runs of many nodes |
| `PeerTable.dfy`, `Gossip.dfy`, `DiscoveryGap.dfy` | the linked list of servers, the discovery protocol, a run in which it is not complete |
| `CharSeparator.dfy`, `Delimiters.dfy`, `EscapedList.dfy` | the tokenizers, and the first one's laws in terms of the given delimiters |

Code that changes state is a class or a method with loops, proved against functions on values; what the program promises is
then proved about those functions, for all inputs and all runs. Machine integers are modelled by their modulus: every wrap
is written out. The hash function and the printing of amounts are parameters of the chain model (`Formats`); where a theorem
needs that hashes do not collide it says so for the blocks of the two chains at hand, and that SHA-256 texts hold no line end
is proved. The clock is a parameter.

## Main results

- The table-driven CRC engine refines the bit-by-bit one for all parameters, the register of both is the unique remainder of
  polynomial division, the augmented form checks to zero exactly on intact frames, and a checksum leaves the
  same residue behind every message.
- SHA-256 fed in any pieces is the standard's digest below 2^29 bytes, 2^29 is exactly the bound of its padding, and
  the constants are derived from the primes.
- Integer parsing accepts exactly what fits; printing and parsing are inverse for every value exactly when no digit is taken for
  a separator, and so under every list of positive group sizes; the decimal scanner's mantissa and power of ten always enclose
  the number read, and which groups reader and scanner accept is settled for every list of positive sizes.
- The scan for the fork point is right on valid chains, orphaned transactions are queued again exactly, mining conserves
  transactions, and in every run of any number of nodes chains stay valid and never get shorter; a block hash fixes the
  payments of its block and of those before it.
- Balances are received minus sent throughout if and only if every transaction meets a stated condition.
- The sweep of the peer table never follows a freed node and keeps exactly the live entries on the tables that occur;
  discovery ends, leaves a mutual relation, and where all start from the same server it leaves a full mesh.
- Both tokenizers terminate and invert their reference splits, which are the only ones.

Where the code does less than one might expect, the exact condition is proved: `Sha256Stream.PaddingIsStandard`,
`PeerTable.SweepKeepsTheLiving`, `CharSeparators.ReuseLosesEmptyFront`, `EscapedLists.WriteThenRead`, `DecimalText.WrittenIsRead`,
`ScannerGroups.OneSizeAccepts`, `ScannerGroups.PointChangesVerdictIff`, `ScannerGroups.WrittenIsAcceptedIff`,
`Nodes.NothingLostIff`, `Nodes.MinedTwice`, `Blocks.ReadOneWayIff`, `Balances.CountedExactlyIff`, `Balances.ExactThroughoutIff`; the failing runs and
inputs are `ChainNetwork.SubmittedTransactionLost`, `Balances.FractionsAreLost`, `ScannerGroups.LongFirstGroupPasses`,
`ScannerGroups.ShortLastGroup` and `DiscoveryGap.TwoNeverMeet`.
A comment at suppression_dead_server speaks of 30 seconds; the code, and the model, remove a server after more than two.
isChainValid never looks at the hash of the first block nor at the difficulty, and the model does not either.

## Model

| member | source | states |
|---|---|---|
| CrcEngines.Reflect | boost/boost/crc.hpp:309-326 | the loop returns the low bits in reverse order with zeros above, for any width and any input |
| CrcEngines.CrcBasic.constructor | boost/boost/crc.hpp:632-644 | the bit-by-bit engine starts with the initial remainder in its register |
| CrcEngines.CrcBasic.Reset | boost/boost/crc.hpp:709-725 | reset puts the initial remainder back into the register |
| CrcEngines.CrcBasic.ProcessBit | boost/boost/crc.hpp:730-751 | one bit is one step of polynomial division on the register, whatever the field holds above the CRC width |
| CrcEngines.CrcBasic.ProcessBits | boost/boost/crc.hpp:755-770 | the low bits of a byte, highest first, are that many division steps |
| CrcEngines.CrcBasic.ProcessByte | boost/boost/crc.hpp:775-782 | a byte is eight division steps, in the order the reflect flag asks for |
| CrcEngines.CrcBasic.ProcessBlock | boost/boost/crc.hpp:786-797 | a block takes the register to the remainder of the whole block |
| CrcEngines.CrcBasic.Checksum | boost/boost/crc.hpp:817-823 | the checksum is the reflected or plain register, xored and cut to the CRC width |
| CrcEngines.CrcTable.DivideRound | boost/boost/crc.hpp:512-527 | one round of the table generator is one division step on the dividend bit under the mask |
| CrcEngines.CrcTable.Divide | boost/boost/crc.hpp:507-528 | the inner loop leaves the remainder of one dividend byte |
| CrcEngines.CrcTable.InitTable | boost/boost/crc.hpp:491-536 | after the first call every one of the 256 entries is the remainder of the dividend its index stands for, in either storage order; later calls change nothing |
| CrcEngines.SlotsDiffer | boost/boost/crc.hpp:530-531 | no two dividends are stored in the same slot and none outside the table |
| CrcSpec.StepsLinear | boost/boost/crc.hpp:730-751 | division is linear over GF(2): registers and messages may be added first or last |
| CrcSpec.OwnTopBitsOnlyShift | boost/boost/crc.hpp:730-751 | fed its own top bits, a register is only shifted |
| CrcSpec.ManyBitsAtOnce | boost/boost/crc.hpp:957-964 | k bit steps are one shift and one remainder of a zero register: why a table can work |
| CrcOptimalEngine.TableStep | boost/boost/crc.hpp:962-964 | one table step on the stored register, reflected or not, narrower than a byte or wider, does what eight bit steps do |
| CrcOptimalEngine.CrcOptimal.constructor | boost/boost/crc.hpp:836-843 | the table-driven engine fills the table and starts with the (reflected) initial remainder |
| CrcOptimalEngine.CrcOptimal.Reset | boost/boost/crc.hpp:923-929 | reset stores the new remainder, reflected where the storage is |
| CrcOptimalEngine.CrcOptimal.ProcessBlock | boost/boost/crc.hpp:948-966 | a block takes the register to the same remainder that bit steps give |
| CrcOptimalEngine.CrcOptimal.GetInterimRemainder | boost/boost/crc.hpp:910-916 | the interim remainder is the register, unreflected and cut to the CRC width |
| CrcOptimalEngine.CrcOptimal.Checksum | boost/boost/crc.hpp:989-995 | output reflection happens exactly when the two reflect flags differ; the result is the checksum of the unreflected register |
| CrcOptimalEngine.EnginesAgree | boost/boost/crc.hpp:632-995 | for every width, polynomial, initial remainder, final xor, both reflect flags and every cut of every message into blocks, the table-driven and the bit-by-bit engine report the same interim remainder and checksum, and both are the specified ones |
| CrcDivision.DivisionIdentity | boost/boost/crc.hpp:730-751 | message shifted up plus initial remainder equals quotient times divisor plus the register, as polynomials over GF(2) |
| CrcDivision.RegisterIsTheRemainder | boost/boost/crc.hpp:730-751 | quotient and remainder are unique: a word satisfies the division identity if and only if it is the register |
| CrcSpec.DelayedStep | boost/boost/crc.hpp:1064-1073 | after n empty steps an augmented step is a plain step: the two register layouts are n bits apart |
| CrcSpec.AugmentedIsPlain | boost/boost/crc.hpp:1064-1073 | a message followed by n zero bits, augmented, gives the plain register over the message |
| CrcOptimalEngine.AugmentedTableStep | boost/boost/crc.hpp:1069-1072 | one byte of the augmented form is eight augmented bit steps, through the same table |
| CrcOptimalEngine.AugmentedCrc | boost/boost/crc.hpp:1047-1076 | the augmented function computes the augmented remainder of the whole buffer |
| CrcOptimalEngine.AugmentedMessageIsPlainCrc | boost/boost/crc.hpp:1047-1076 | for widths of whole bytes, over the message and that many zero bytes the augmented CRC is the unreflected CRC of the message, with the start value carried over the zero bytes |
| CrcOptimalEngine.FrameCheck | boost/boost/crc.hpp:1047-1076 | over the message and as many bytes as the CRC is wide the result is zero if and only if those bytes are the message's own CRC, highest byte first |
| CrcOptimalEngine.MessageBitsInjective | boost/boost/crc.hpp:766-769 | different byte strings are different bit strings, in either bit order |
| CrcResidue.ChecksumLeavesResidue | boost/boost/crc.hpp:786-823 | for widths of whole bytes and equal reflect flags, a message and its own checksum behind it leave the register at what the final xor makes of a zero register, whatever the message and the initial remainder |
| CrcResidue.ResidueOnlyBehindChecksum | boost/boost/crc.hpp:786-823 | with an odd polynomial, bytes behind a message leave that register if and only if they are its checksum |
| CrcResidue.BurstsAreFound | boost/boost/crc.hpp:786-797 | with an odd polynomial, every change within a stretch as long as the register changes the remainder of the whole message |
| Sha256Stream.MacrosAreTheStandardFunctions | include/sha256.h:31-39 | the rotation and the four sigma macros are the circular shifts and sigma functions of FIPS 180-4 (sections 3.2 and 4.1.2) |
| Sha256Numbers.ChoosesBits | include/sha256.h:34-34 | a bit of the choice macro comes from the second word where the first has a one, from the third elsewhere |
| Sha256Numbers.MajorityVotes | include/sha256.h:35-35 | a bit of the majority macro is that of at least two of the three words |
| Sha256Numbers.LowBitsMove | include/sha256.h:31-32 | a rotation moves the lowest bits to the top, a shift loses them |
| Sha256Numbers.AddIsModular | src/sha256.cpp:36-61 | the additions of words are additions of numbers modulo 2^32 |
| Sha256Numbers.WordIsTheNumber | include/sha256.h:47-53 | four packed bytes are worth the word, the first one highest |
| Sha256Numbers.BytesAreTheNumber | include/sha256.h:40-46 | the bytes that a word is unpacked to are worth it, the first one highest |
| Sha256Constants.RoundConstants | src/sha256.cpp:5-21 | every round constant is the first 32 bits behind the point of the cube root of the prime of its index (section 4.2.2 of FIPS 180-4) |
| Sha256Constants.InitialWords | src/sha256.cpp:70-77 | every word of the initial hash value is the first 32 bits behind the point of the square root of the prime of its index (section 5.3.3) |
| Sha256Recurrence.ScheduleIsRecurrence | src/sha256.cpp:33-40 | the schedule words are the block's bytes as numbers, and from the seventeenth on one sum of four modulo 2^32 |
| Sha256Recurrence.RoundsAreRecurrence | src/sha256.cpp:42-57 | after any number of rounds the eight working variables are the last four members of two sequences, each given by one sum modulo 2^32 of earlier members |
| Sha256Recurrence.CompressAddsUp | src/sha256.cpp:58-61 | the hash value after a block is word by word the sum of the one before and of the last members |
| Sha256Stream.SHA256.Init | src/sha256.cpp:68-81 | init sets the initial hash value of section 5.3.3 and empties the buffer |
| Sha256Stream.SHA256.Expand | src/sha256.cpp:33-40 | the 64 words are the message schedule of the block |
| Sha256Stream.SHA256.RoundInPlace | src/sha256.cpp:46-56 | the nine assignments of a round, in their order, are one round on the working variables |
| Sha256Stream.SHA256.TransformBlock | src/sha256.cpp:32-62 | one pass of the loop is the compression function on one block |
| Sha256Stream.SHA256.Transform | src/sha256.cpp:23-66 | the state after any number of blocks is the chained compression of those blocks |
| Sha256Stream.SHA256.TakeBlocks | src/sha256.cpp:96-104 | a filled buffer and the whole blocks behind it are hashed, the rest waits in the buffer, and the 32-bit total is the hashed length modulo 2^32 |
| Sha256Stream.SHA256.Update | src/sha256.cpp:83-106 | feeding a piece appends it to what was fed: hashed part, waiting bytes and total stay in step for every piece length |
| Sha256Stream.SHA256.PadBuffer | src/sha256.cpp:114-120 | the one or two last blocks end up in the buffer: waiting bytes, the one bit, zeros, the 32-bit length |
| Sha256Stream.SHA256.Final | src/sha256.cpp:108-127 | final writes the digest of the message padded in place, which below 2^29 bytes is the standard digest |
| Sha256Stream.PaddingIsStandard | src/sha256.cpp:114-120 | the padding in place is that of section 5.1.1 of FIPS 180-4 if and only if the message is shorter than 2^29 bytes |
| Sha256Numbers.LengthIsTheNumber | src/sha256.cpp:114-120 | the eight bytes of a length are worth it, the highest first |
| Sha256Numbers.PaddingBytes | src/sha256.cpp:118-119 | the byte behind the message is 128 and the bytes behind that are worth nothing |
| Sha256Numbers.DigestIsTheNumber | src/sha256.cpp:122-126 | the digest is worth the eight hash words, the first one highest |
| Sha256Stream.HashPieces | src/sha256.cpp:83-127 | a message fed in any number of pieces, cut anywhere, gives the digest of the whole message |
| Sha256Stream.Sha256Hex | src/sha256.cpp:129-144 | sha256() returns the hexadecimal text of the digest of its argument |
| Sha256Stream.HexIsInjective | src/sha256.cpp:141-143 | two digests with the same text are the same digest |
| Sha256Numbers.HexIsTheNumber | src/sha256.cpp:141-143 | the text, read as a number in base 16, is the digest read as a big-endian number |
| Sha256Stream.HexHasNoLineEnd | src/sha256.cpp:141-143 | a hash text holds no line end, so block texts can be taken apart |
| DecimalText.PlainValue | boost/boost/lexical_cast.hpp:844-853 | the digits written without groups are worth the number |
| DecimalText.GroupedLength | boost/boost/lexical_cast.hpp:810-836 | a grouped text has fewer separators than digits |
| DecimalText.WrittenIsRead | boost/boost/lexical_cast.hpp:783-970 | under every grouping list a locale can give, what is written for n is read back as the plain digits of n if and only if no digit with which the reader starts a group of size zero is the separator; otherwise fewer digits are read, or the text is refused |
| DecimalText.NotMisread | boost/boost/lexical_cast.hpp:795-944 | that never happens under a list without a zero, nor with a separator that is no digit |
| DecimalText.FewerDigitsAreWorthLess | boost/boost/lexical_cast.hpp:889-966 | fewer digits are worth less, so a misread number is never read as itself |
| DecimalText.ReadDropsSeparators | boost/boost/lexical_cast.hpp:897-939 | what is read are the digits of the text in order, separators left out |
| DecimalText.PlainDigitsAreRead | boost/boost/lexical_cast.hpp:918-934 | digits without separators are accepted under every grouping list |
| GroupedReader.ReadIffGroupsMatch | boost/boost/lexical_cast.hpp:889-944 | for every grouping list with a positive first size and a separator that is no digit, a text is a number if and only if it is made of digits and separators, has a digit in front of the first separator, and every later group has exactly the digits wanted of it, counted from the right |
| GroupedReader.PositiveSizesAreWanted | boost/boost/lexical_cast.hpp:889-915 | wanted are, under at most 256 positive sizes, those of the list, the last one for all further groups |
| GroupedReader.ShortGroupIsRefused | boost/boost/lexical_cast.hpp:900-915 | such as a short group between two separators, which no text accepted under a list of positive sizes has before its last group |
| MachineArithmetic.WrapDetected | boost/boost/lexical_cast.hpp:901-909 | dividing a wrapped product back finds every overflow and reports no other |
| LexicalCast.PutDigits | boost/boost/lexical_cast.hpp:844-857 | the digits are written backwards so that they end at `finish`; the rest of the buffer keeps its contents |
| LexicalCast.PutGroups | boost/boost/lexical_cast.hpp:795-838 | the same with separators, under every grouping list with a positive first size |
| LexicalCast.PutUnsigned | boost/boost/lexical_cast.hpp:783-859 | lcast_put_unsigned writes exactly the specified text in front of `finish` and touches nothing else |
| LexicalCast.OverflowTestsAreExact | boost/boost/lexical_cast.hpp:949-962 | the wrapped product test, the sum test and the sticky multiplier flag together fire if and only if the new value does not fit the type |
| LexicalCast.TakeDigit | boost/boost/lexical_cast.hpp:947-966 | one pass of the reading loops accepts a character if and only if it is a digit and the value with it fits |
| LexicalCast.ReadPlain | boost/boost/lexical_cast.hpp:947-966 | the plain loop accepts exactly digits whose value fits and computes that value |
| LexicalCast.ReadGroups | boost/boost/lexical_cast.hpp:889-944 | the grouped loop, with its fall-through to the plain loop where a separator is missing, reads the same digits as the specification |
| LexicalCast.RetUnsigned | boost/boost/lexical_cast.hpp:862-970 | lcast_ret_unsigned returns true exactly when the text is a number in this grouping whose value fits, and stores that value; without groups: a non-empty run of digits whose value fits |
| LexicalCast.UnsignedNegationIsMagnitude | boost/boost/lexical_cast.hpp:771-778 | unsigned negation of the converted value is the magnitude, also of the signed minimum |
| LexicalCast.NegatedPattern | boost/boost/lexical_cast.hpp:1847-1850 | negating in the unsigned type and converting back gives the negative value, also the signed minimum |
| LexicalCast.TextFits | boost/boost/lexical_cast.hpp:572-585 | no number, under any grouping list, needs more characters than the computed buffer length |
| LexicalCast.BufferIsFilled | boost/boost/lexical_cast.hpp:572-585 | and the computed length is not too long: a number of digits10 + 1 digits in groups of one digit fills it |
| LexicalCast.ShlSigned | boost/boost/lexical_cast.hpp:1521-1532 | a signed number is written as its sign and its magnitude |
| LexicalCast.ShrUnsigned | boost/boost/lexical_cast.hpp:1798-1823 | an unsigned number with an optional sign is accepted exactly when its magnitude fits; a minus sign negates modulo 2^n |
| LexicalCast.ShrSigned | boost/boost/lexical_cast.hpp:1825-1856 | a signed number is accepted exactly when it is one and lies in the type, and is then stored exactly |
| LexicalCast.SignedTextIsRead | boost/boost/lexical_cast.hpp:1521-1856 | the text of a signed number is read as that number if and only if its digits are not misread in that sense |
| LexicalCast.SignsAreRead | boost/boost/lexical_cast.hpp:1825-1856 | a plus sign in front of a number's text changes nothing, a minus sign makes it the opposite number |
| LexicalCast.PrintThenParseSigned | boost/boost/lexical_cast.hpp:1521-1856 | printing any signed value into a buffer of the computed length and parsing it succeeds with that value if and only if its digits are not misread; so always, the minimum included, under a list of positive sizes |
| LexicalCast.PrintThenParseUnsigned | boost/boost/lexical_cast.hpp:783-970 | the same for every unsigned value |
| DecimalScanner.DigitRead | boost/boost/lexical_cast.hpp:1225-1263 | one digit, in front of or behind the point, kept or dropped, keeps the mantissa and the power of ten around the number read |
| DecimalScanner.NumberIsBracketed | boost/boost/lexical_cast.hpp:1215-1263 | the number read lies in [mantissa * 10^p, (mantissa + 1) * 10^p) and is mantissa * 10^p as long as the mantissa is not full |
| ScannerGroups.LengthsAreWrappedCounts | boost/boost/lexical_cast.hpp:1221-1267 | the scanner knows every group only by its number of digits wrapped into a signed char, for texts of any length |
| ScannerGroups.OneSizeAccepts | boost/boost/lexical_cast.hpp:1295-1322 | with one group size, in digit counts: separators are accepted exactly behind a first group of 1 to `size` digits, or of a number that wraps to a negative char, and then groups of that size, all modulo 256 |
| ScannerGroups.ShortRunsAreChecked | boost/boost/lexical_cast.hpp:1295-1322 | up to 127 digits a group that is what one expects: a first group of at most that size, then groups of exactly that size |
| ScannerGroups.LongFirstGroupPasses | boost/boost/lexical_cast.hpp:1295-1322 | from 128 digits on a first group of any length that wraps to a negative char passes, here in front of a point |
| ScannerGroups.PointChangesVerdictIff | boost/boost/lexical_cast.hpp:1264-1294 | for every text without point and exponent and every grouping list, the verdicts without and with a point behind it differ if and only if all separators pass and either the last group is wrong or no digit follows the last separator |
| ScannerGroups.WrongLastGroupIsAccepted | boost/boost/lexical_cast.hpp:1264-1294 | with one size, in digit counts: they differ exactly where there is a separator, the groups in front of the last pass, and the last has a digit but not `size` of them; the text without the point is the one accepted |
| ScannerGroups.ShortLastGroup | boost/boost/lexical_cast.hpp:1277-1283 | such as any two groups of which the last is too short: accepted at the end of the text, refused in front of a point |
| ScannerGroups.LengthsOfGrouped | boost/boost/lexical_cast.hpp:795-838 | the group lengths that the scanner counts in a written number are those of the number's digits cut by the list from the right |
| ScannerGroups.WrittenIsAcceptedIff | boost/boost/lexical_cast.hpp:1264-1322 | what lcast_put_unsigned writes under a list of positive sizes, followed by a point, is accepted under the same list if and only if it has no separator, or fills every group but the last with no two neighbouring sizes behind the first equal |
| ScannerGroups.TwoSizesAlwaysPass | boost/boost/lexical_cast.hpp:1264-1322 | so every number passes under one or two sizes, and under every list of three or more sizes the numbers with one digit more than the first group do not |
| ScannerLists.PositionIff | boost/boost/lexical_cast.hpp:1295-1324 | for every grouping list: the scanner is at position p behind a separator if and only if the lengths are a first one no longer than the last size, then any number of the last size, then one of each size down to p, each different from the one behind it |
| ScannerLists.GroupsFineIff | boost/boost/lexical_cast.hpp:1264-1324 | for every list of positive sizes, in digit counts modulo 256: the groups pass in front of a point or an exponent if there is only one, or those in front of the last descend to the second size and the last one has the first; at the end of the text they may descend to any size and the last one has a digit |
| ScannerLists.DecimalIff | boost/boost/lexical_cast.hpp:1221-1336 | so a text is accepted if and only if its characters are in the right places and its integer part has such groups |
| ScannerLists.IntegerIff | boost/boost/lexical_cast.hpp:1264-1324 | in particular digits and separators alone, and with a point behind them |
| ScannerLists.LongFirstGroupIsRefused | boost/boost/lexical_cast.hpp:1317-1322 | such as a first group longer than the last size: refused with and without a point |
| ScannerLists.WithoutPointIff | boost/boost/lexical_cast.hpp:1221-1336 | without a point a text needs a digit or separator in front of its end or exponent |
| ScannerLists.WithPointIff | boost/boost/lexical_cast.hpp:1225-1293 | with a point either side of it may be empty; a point alone is refused |
| DecimalScanner.RefusedStaysRefused | boost/boost/lexical_cast.hpp:1295-1322 | a refused separator refuses every longer text |
| DecimalScanner.ScanNumber | boost/boost/lexical_cast.hpp:1205-1336 | the scan accepts exactly the texts that the reference describes, with or without groups, for texts of any length; the digits it used are those of the text; the mantissa is full exactly when their number does not fit |
| Blocks.SolvesMeansZeros | src/block.cpp:37-41 | the prefix test says that the hash starts with as many zeros as the difficulty |
| Blocks.NegativeDifficulty | src/block.cpp:41-41 | for a negative difficulty only the empty hash does |
| Blocks.FirstSolutionIsLeast | src/block.cpp:41-45 | the first solution is the least one, and exists as soon as any nonce solves the difficulty |
| Blocks.TextOfOne | src/block.cpp:48-59 | the exact text of a block with one transaction |
| Blocks.IntTextIsDecimal | src/block.cpp:50-57 | timestamp and nonce are printed in decimal, with a minus sign if negative |
| Blocks.SameTextSameBlock | src/block.cpp:48-59 | two blocks with the same text have the same previous hash, timestamp and nonce and print the same transactions, if hashes hold no line end |
| Blocks.SameTextSamePayments | src/block.cpp:52-56 | equally printed transaction lists have equally many transactions, with the same payer, payee and printed amount one by one, if addresses and amounts hold no space |
| Blocks.SameTextSameContents | src/block.cpp:48-59 | so two blocks with the same text hold the same payments |
| Blocks.SpacesAreAmbiguous | src/block.cpp:54-55 | with spaces in addresses they need not: one text for two different payments |
| Blocks.ReadOneWayIff | src/block.cpp:54-55 | exactly, for one transaction and any addresses: its text is that of one payment only if and only if the word between the addresses stands nowhere else in them |
| Blocks.Block.New | src/block.cpp:3-11 | a new block has nonce 0 and carries its own hash |
| Blocks.Block.ToString | src/block.cpp:48-59 | the loop builds the block text |
| Blocks.Block.MineBlock | src/block.cpp:35-46 | mining stops at the least nonce, from the current one on, whose hash solves the difficulty, and changes only nonce and hash |
| Blocks.Block.CopyConstructor | src/block.cpp:61-71 | a copied block is a new object with the same contents |
| Blockchains.ValidOneMore | src/blockchain.cpp:62-75 | a longer chain is valid if and only if the shorter one is and the new block carries its hash and follows the last one |
| Blockchains.MinedIsValid | src/blockchain.cpp:30-41 | mining keeps a valid chain valid |
| Blockchains.GenesisHoldsNothing | src/blockchain.cpp:10-17 | a new chain is valid; its only block carries its hash, names the text 0 as the one before it and holds no transaction |
| Blockchains.MiningConserves | src/blockchain.cpp:30-40 | mining moves the pending transactions into the chain and adds one reward, nothing else |
| Blockchains.BalanceIsReceivedMinusSent | src/blockchain.cpp:46-60 | for whole amounts the balance is what came in minus what went out, although both comparisons hold on inequality |
| Balances.BystanderPays | src/blockchain.cpp:48-55 | a fractional amount that passes between two others takes one unit from a balance, towards zero, unless the amount outweighs it on the other side of zero |
| Balances.CountedExactlyIff | src/blockchain.cpp:48-55 | one transaction is counted exactly, at any balance, for any amount and any address, if and only if it is a transfer to oneself, or its amount is whole, or it is between two others and the balance is zero or outweighed |
| Balances.ExactThroughoutIff | src/blockchain.cpp:46-60 | the balance is received minus sent after every transaction if and only if every transaction meets that condition at what the balance ought to be then |
| Balances.AllExactIffWhole | src/blockchain.cpp:46-60 | where nobody pays himself, all balances are exact throughout if and only if all amounts are whole |
| Balances.StepErrorIsSmall | src/blockchain.cpp:48-55 | no transaction puts a balance off by more than one, and none where that condition holds |
| Balances.FinalBalance | src/blockchain.cpp:46-60 | the last balance is received minus sent plus the errors of the single transactions, so it is exact if and only if they cancel |
| Balances.FractionsAreLost | src/blockchain.cpp:48-55 | half a unit paid between two others costs a third his only unit: a balance of 0 where 1 is due |
| Balances.MinerIsPaid | src/blockchain.cpp:30-60 | for whole amounts, over mined and waiting transactions, mining raises the miner's balance by exactly the reward, lowers that of the empty address by it and leaves every other as it is |
| Blockchains.BalancesSumToZero | src/blockchain.cpp:46-60 | for whole amounts the balances over all addresses sum to zero |
| Blockchains.MintBalance | src/blockchain.cpp:37-39 | the empty address owes exactly what was minted, as long as nothing is paid to it |
| Blockchains.Blockchain.constructor | src/blockchain.cpp:3-23 | a new chain holds one genesis block and nothing pending |
| Blockchains.Blockchain.MinePendingTransactions | src/blockchain.cpp:30-40 | one block with all pending transactions is appended, mined to the first solution; only the reward is pending then, and the old blocks are untouched |
| Blockchains.Blockchain.GetBalanceOfAddress | src/blockchain.cpp:46-60 | the nested loops compute the balance over all transactions of the chain, truncating as the conversion to int does |
| Blockchains.Blockchain.IsChainValid | src/blockchain.cpp:62-75 | the loop accepts exactly the chains whose blocks from the second on carry their own hash and follow their predecessor |
| Blockchains.Blockchain.CopyConstructor | src/blockchain.cpp:90-103 | a copy has the same contents and shares no block with the original |
| Nodes.ValidHashesArePlain | src/server.cpp:74-80 | in a chain accepted by isChainValid only the hash of the first block can hold a line end |
| Nodes.AgreementIsPrefix | src/server.cpp:76-80 | for two valid chains and a hash without collisions on them, the indices where hashes agree form a prefix |
| Nodes.HashFixesPayments | src/server.cpp:76-80 | without collisions and spaces, a block's hash fixes payer, payee and printed amount of every transaction of that block and of all blocks before it but the first |
| Nodes.ForgeryIsRefused | src/blockchain.cpp:62-75 | a chain in which a payer, a payee or a printed amount was changed under the same block hash is not valid |
| Nodes.ForkPointIsTheFork | src/server.cpp:76-80 | the scan finds the one fork point: hashes agree at a shared index if and only if it lies before it |
| Nodes.SharedBlocksAgree | src/server.cpp:76-80 | blocks in front of the fork agree in previous hash, timestamp, nonce and printed transactions, and without spaces in every payer, payee and printed amount |
| Nodes.OrphansAreQueuedAgain | src/server.cpp:81-92 | after taking over a chain, pending is the received pending list followed by exactly the transactions of the local blocks from the fork on; none is lost or added |
| Nodes.MinedTwice | src/server.cpp:83-89 | after taking over a sent chain a transaction is both mined and waiting if and only if the chain holds it and it stood in an orphaned block as well |
| Nodes.NothingLostIff | src/server.cpp:70-99 | taking over a chain loses nothing if and only if the received chain and pool hold, as often, what was waiting and what stood in the shared blocks |
| Nodes.SecondArrivalLosesOrphans | src/server.cpp:70-99 | receiving the same chain once more leaves just what was received, so it loses transactions if and only if orphans were queued the first time |
| Nodes.BlockTakenIffLinked | src/server.cpp:101-121 | a received block is taken if and only if it carries its hash and follows the last block; the pending list stays |
| Nodes.MinedBlockSpreads | src/server.cpp:517-533 | a freshly mined block is taken by every node with the same chain |
| Nodes.MiningStepConserves | src/server.cpp:493-515 | a mining step adds exactly the submitted transaction, and one reward if five were waiting and a block was mined; the mined chain is always adopted |
| Nodes.FifthTransactionIsMined | src/server.cpp:493-515 | a block is mined exactly when the submitted transaction is at least the fifth one waiting; it holds all of them, the given time and the nonce |
| Nodes.NoeudBloc.SendBlockchain | src/server.cpp:70-99 | the handler does what the value function says; a refused chain leaves the node's objects as they were, an adopted one shares nothing with the message |
| Nodes.NoeudBloc.FirstDifference | src/server.cpp:76-80 | the scan loop finds the first index where the hashes differ |
| Nodes.NoeudBloc.Requeue | src/server.cpp:83-89 | the nested loops append the transactions of the local blocks in order, to the copy only |
| Nodes.NoeudBloc.SendBlock | src/server.cpp:101-121 | a block is appended in a deep copy, which replaces the chain only if valid |
| Nodes.NoeudBloc.ThreadMine | src/server.cpp:493-515 | one submitted transaction: queued, and mined in a copy with the first solution once five are waiting |
| ChainNetwork.ChainsOnlyGrow | src/server.cpp:70-132 | over every interleaving of the three kinds of step on any number of nodes, at all times, chains are valid and not empty and lengths never go down |
| ChainNetwork.RefusalChangesNothing | src/server.cpp:95-98 | a run of any number of nodes without its refused messages is a run again, from the same start to the same end, and no step of it is refused |
| ChainNetwork.SubmittedTransactionLost | src/server.cpp:70-99 | a run of two steps of two started nodes after which a submitted transaction is nowhere in the network, for every transaction |
| ChainNetwork.NothingSubmittedIsLost | src/server.cpp:485-539 | until a node takes over another chain it holds, mined or waiting, everything it held and everything submitted to it |
| PeerTable.InsertServer | src/distributed_server.cpp:60-70 | the new entry is put in front; the list behind it is unchanged |
| PeerTable.CountServer | src/distributed_server.cpp:76-81 | the count is the number of nodes |
| PeerTable.IsKnown | src/distributed_server.cpp:171-187 | the answer is whether an entry with this address and port exists |
| PeerTable.GetServer | src/distributed_server.cpp:189-205 | the first node of the server is returned, or null |
| PeerTable.KeepAliveServer | src/distributed_server.cpp:114-132 | the first entry of the server gets the new time; no other entry and no link changes |
| PeerTable.SuppressionServer | src/distributed_server.cpp:88-106 | the first node of the server is unlinked and freed, and no other is; the others keep order and entries |
| PeerTable.SuppressionDeadServer | src/distributed_server.cpp:141-163 | on any table the sweep computes the specified fold and terminates although it deletes while traversing; exactly the removed nodes are freed, and every node it goes on with is in the list |
| PeerTable.SweepKeepsTheLiving | src/distributed_server.cpp:141-163 | the sweep leaves exactly the live entries, in order, if and only if no live entry stands before a dead one of the same server; so always on tables with distinct keys |
| PeerTable.KeepAliveLasts | src/distributed_server.cpp:114-163 | on a table with distinct servers, a known server that was kept alive is known after a sweep if and only if it is not this server and the sweep comes within two seconds |
| PeerTable.SweepsInTimeSpareIt | src/distributed_server.cpp:141-163 | any number of sweeps within that time leave it in the table |
| Gossip.Server.ShareAllServers | src/server.cpp:465-483 | the whole table is sent in order, unless the receiver is this server |
| Gossip.Server.HandleConnect | src/server.cpp:824-866 | an unknown server gets the table, is inserted, and gets a CONNECT back; itself and known servers are ignored |
| Gossip.Server.HandleShare | src/server.cpp:911-932 | an unknown server is inserted and sent a CONNECT |
| Gossip.Server.Bootstrap | src/server.cpp:716-729 | at start the given server is sent a CONNECT and inserted |
| Gossip.AnsweredKept | src/server.cpp:824-932 | delivery keeps: who knows a server is known to it, or its CONNECT is under way |
| Gossip.InitialIsSound | src/server.cpp:688-732 | a network whose servers have just started, with or without the address of another, is sound |
| Gossip.JoinIsSound | src/server.cpp:716-729 | so is a sound network that a further server joins, at any time |
| Gossip.EveryRunIsSound | src/server.cpp:716-932 | in every run from a sound network tables hold no server twice, no server lists itself unless started with its own address, and knowing is mutual up to a CONNECT under way; with nothing under way it is mutual |
| Gossip.HubKept | src/server.cpp:824-932 | delivery keeps: everybody knows the hub, nobody tells it of others, and of any two servers it knows one knows or is being told of the other |
| Gossip.StartedTogetherFullMesh | src/server.cpp:716-932 | any number of servers that start together, each with the address of the same one, know each other once nothing is under way, however the messages were delivered |
| Gossip.ManyJoinersFullMesh | src/server.cpp:716-932 | from a full mesh, or one server alone, any number of servers may start with the address of the same member, at any time, between any deliveries: whenever nothing is under way all servers know each other |
| Gossip.JoiningKeepsFullMesh | src/server.cpp:716-932 | in particular one more may start from any member of a full mesh, and however the messages are delivered, once nothing is under way all servers know each other again |
| DiscoveryGap.TwoNeverMeet | src/server.cpp:716-932 | with different addresses to start from that fails: a run of five servers, started together, after which nothing is under way and two of them do not know each other |
| Gossip.DeliveryLowersMeasure | src/server.cpp:824-932 | every delivery lowers (missing entries) * (n + 2) + messages under way |
| Gossip.DiscoveryEnds | src/server.cpp:824-932 | no run of discovery is longer than that measure of its first state |
| CharSeparators.CharSeparator.Next | boost/boost/token_functions.hpp:472-541 | one call finds the specified token, moves on by what it used up and sets the state, for both policies |
| CharSeparators.CharSeparator.Tokenize | boost/boost/token_functions.hpp:472-541 | repeated calls end, by twice the rest plus one if no output is done, and yield the specified tokens; with empty tokens kept the state is left set |
| CharSeparators.SplitIsExact | boost/boost/token_functions.hpp:471-541 | fields and delimiters of the reference split, put together, are the text |
| CharSeparators.SplitIsAtDelimiters | boost/boost/token_functions.hpp:471-568 | no field holds a delimiter and every delimiter is one |
| CharSeparators.SplitIsUnique | boost/boost/token_functions.hpp:471-568 | there is no other way to split: any fields without delimiters, glued together at delimiters, are the fields and delimiters of the glued text |
| CharSeparators.KeepsEverything | boost/boost/token_functions.hpp:504-538 | with empty tokens kept, the tokens are all fields with the kept delimiters between them |
| CharSeparators.TokenCount | boost/boost/token_functions.hpp:504-538 | there are one token, one more for every delimiter and one more again for every kept one |
| CharSeparators.TokensRestoreText | boost/boost/token_functions.hpp:504-538 | putting the dropped delimiters back between the tokens restores the text |
| CharSeparators.ReuseLosesEmptyFront | boost/boost/token_functions.hpp:469-521 | since reset does nothing, a used separator yields the same tokens as a fresh one if and only if the text starts with a character that is no delimiter; otherwise the empty first token is lost |
| CharSeparators.DropsEmptyFields | boost/boost/token_functions.hpp:483-503 | with empty tokens dropped, the tokens are the non-empty fields with the delimiters that are not dropped between them |
| CharSeparators.DropKeepsTheRest | boost/boost/token_functions.hpp:483-503 | then no token is empty and together they are the text without its dropped characters |
| Delimiters.GivenSplits | boost/boost/token_functions.hpp:448-568 | for a separator made with dropped and kept delimiters: fields that hold none of them, glued at some of them, come back as the non-empty fields and the delimiters not dropped, or as all fields and the kept delimiters |
| Delimiters.DefaultSplits | boost/boost/token_functions.hpp:464-568 | the default separator does so at white space, which is dropped, and punctuation |
| Delimiters.DroppedDisappear | boost/boost/token_functions.hpp:448-568 | with empty tokens dropped no token is empty and the tokens together are the text without the dropped delimiters |
| Delimiters.WhiteSpaceDisappears | boost/boost/token_functions.hpp:464-568 | by default, without its white space |
| Delimiters.TokensAreCounted | boost/boost/token_functions.hpp:448-568 | with empty tokens kept there are one token, one more for every dropped and two more for every kept delimiter, if no character is both |
| Delimiters.GivenKeeps | boost/boost/token_functions.hpp:448-568 | every kept delimiter of the text is a token of its own, as often as it stands there |
| Delimiters.DefaultKeeps | boost/boost/token_functions.hpp:464-568 | by default, every punctuation character |
| EscapedLists.EscapedListSeparator.DoEscape | boost/boost/token_functions.hpp:126-147 | an escape yields the character it stands for or one of the two errors |
| EscapedLists.EscapedListSeparator.Next | boost/boost/token_functions.hpp:161-197 | one call reads one field, with quotes and escapes, remembers a separator at its end, or throws |
| EscapedLists.EscapedListSeparator.Tokenize | boost/boost/token_functions.hpp:161-197 | repeated calls end and yield the specified fields up to the first error |
| EscapedLists.ThrowsOnBadEscape | boost/boost/token_functions.hpp:126-147 | reading a text throws exactly when it holds a trailing or unknown escape, and reports the first one |
| EscapedLists.ItemIsRead | boost/boost/token_functions.hpp:174-195 | a written field, quoted or not, is read back in front of anything |
| EscapedLists.WriteThenRead | boost/boost/token_functions.hpp:78-197 | every list of fields, each quoted or not, is read back as it was written, if and only if it is not the list of one empty unquoted field; the empty last field comes back through last_ |
| EscapedLists.DefaultsFit | boost/boost/token_functions.hpp:151-153 | the default characters are among the conventions this holds for |
| EscapedLists.GivenWriteThenRead | boost/boost/token_functions.hpp:105-197 | for a separator made with any three strings, lists written with any one character of each are read back, under the same condition |
| EscapedLists.PlainTextIsOneField | boost/boost/token_functions.hpp:105-197 | a text that holds none of their characters is one field, unchanged |

## Left out

- Sockets, address lookup, RCF calls, SF serialization, threads, semaphores and signals: each handler is one atomic step and a message is a value. The RCF handlers of the program do not take the semaphore of the chain; races between them and the mining thread are not modelled.
- Wall-clock time: timestamps and the current time are parameters.
- Printing, argument parsing, usage text, the display mode, Blockchain::toString.
- Client loyalty bonuses, the `pas_valide` counter and the request for a chain it triggers: settled by one branch each.
- Release of memory, except that freed list nodes are never read.
- Rounding of `double` amounts (they are reals), their printing (a parameter), the overflow of the `int` balance and of the 64-bit nonce (both unbounded).
- Transactions are values where the program shares pointers to them; no code changes a transaction after it was made.
- Blocks.Block.MineBlock: requires that some nonce solves the difficulty, because the program loops for ever otherwise; the difficulty is any int.
- Nodes.NoeudBloc.ThreadMine: the second half of the adoption test, for chains of equal length, is left out because mining always adds a block, so it is never reached.
- The strength of SHA-256: freedom from collisions is an assumption on two chains, never a goal.
- Sha256Stream.SHA256.Update: pieces of 2^31 bytes and more, for which the block index of `transform` overflows a signed int.
- Gossip.EveryRunIsSound: assumes reliable delivery and no sweep. The address a CONNECT is answered to is taken to be the one it names.
- Gossip.StartedTogetherFullMesh: for starts with different addresses only that the mesh can stay incomplete is proved (`DiscoveryGap.TwoNeverMeet`), not for which starts it always becomes complete.
- The chain that a server sends along with its answer to a CONNECT is a `ReceiveChain` step of the chain network; the two networks are modelled apart.
- PeerTable.SuppressionDeadServer: time differences are exact integers.
- CrcOptimalEngine.EnginesAgree: the table is an object handed to the engine where the program has one static table for each parameter set; widths of the fast type are any width of at least that of the basic one.
- CrcOptimalEngine.AugmentedCrc: for widths of at least eight bits, which its shift count needs.
- LexicalCast.RetUnsigned: for types narrower than int the program multiplies in int, so a character that is no digit can overflow it before it is refused; the model refuses it at once. Moduli are at least ten.
- GroupedReader.ReadIffGroupsMatch: for separators that are no digit.
- Blocks.SameTextSamePayments: amounts are compared as printed, and six decimals print different amounts alike. The program does not check addresses for spaces; for lists the condition is sufficient, for one transaction `Blocks.ReadOneWayIff` gives the exact one.
- ScannerLists.GroupsFineIff: for lists of positive sizes; `ScannerLists.PositionIff` has no such limit.
- ScannerGroups.WrittenIsAcceptedIff: for lists of positive sizes and a separator that is no digit.
- DecimalScanner.ScanNumber: NaN and infinity text, the sign in front, the exponent behind, the overflow of the `int` power of ten and the final call of `pow` are not part of this model.
- Locale lookup: the grouping list, separator and decimal point are parameters; a `char` is signed with CHAR_MAX 127.
- CharSeparators.IsPunct, CharSeparators.IsSpace: the classes of the "C" locale.
- The other tokenizers of token_functions.hpp, the remaining Boost headers, RCF, `include/uuid`, the client and the helpers for addresses are not modelled.
