# Instruction encoder of arm-emulator, in Dafny

`src/main.rs` in arm-emulator turns one line of assembly text, such as
`ADD 1 2 3`, into one 32-bit instruction word:

- **Tokens.** The line is split at whitespace.
- **Op-code.** The first token becomes the op-code: exactly `ADD` gives 1, and anything else, or nothing at all, gives 0, the no-op.
- **Operands.** Up to three further tokens are read as unsigned decimal numbers.
  - A number below 256 is kept.
  - A token that does not parse as a `u32`, or parses to 256 or more, gives 0.
  - Either way the token uses up its position.
- **Layout.** The op-code is shifted into bits 24-31, and operands one to three into bits 16-23, 8-15 and 0-7.
- **Validation.** The shifted op-code is passed through `validate`, which returns it unchanged.

The model has four modules:

- **Tokenizer** (`tokenizer.dfy`): `str::split_whitespace` as a recursive function `Tokens`. Its properties:
  - a line has no tokens exactly when it is blank;
  - cutting a line at a whitespace character splits its tokens there;
  - words joined by single spaces tokenise back to those words.
- **Numeral** (`numeral.dfy`): `u32::from_str` as `ParseU32`, plus the canonical decimal spelling `Decimal`. Parsing inverts spelling.
- **Word** (`word.dfy`): 32-bit words as integers below 2^32.
  - Rust's `<<` and `|` on `u32` are written out as `Shl` and `Or`. The or they compute is proved to be bitwise, bit by bit.
  - `Pack` and `Unpack` are the 8/8/8/8 byte layout, with their round trip.
  - Or-ing a multiple of 2^n with a value below 2^n is addition, and the two have no bit in common.
- **Encoder** (`encoder.dfy`): `encode` as the method `Encode`. Its code follows the Rust loop step by step:
  - the token iterator is a sequence with a cursor;
  - the signed counter `i` runs from 2 down to 0, with the early `break` when tokens run out;
  - `args |= literal << (i * 8)` accumulates the operands.

  `Encode` is proved equal to `EncodeLine`, a reference definition that packs the four fields directly. The properties of the encoder are then proved about `EncodeLine`.

The layout is the one the comment at `src/main.rs:22` gives: an 8-bit op-code and three 8-bit operands.

## Model

| member | source | states |
|---|---|---|
| Encoder.Encode | src/main.rs:29-60 | The loop over the tokens returns exactly `EncodeLine(instruction)`. That word holds the op-code of the first token in byte 3 and the first three operands in bytes 2, 1 and 0. |
| Encoder.Validate | src/main.rs:62-65 | `validate` returns its argument unchanged. |
| Encoder.OpCode | src/main.rs:33-36 | The op-code is 1 exactly when there is a first token and it is `ADD`; otherwise it is 0. |
| Encoder.OpCodeByte | src/main.rs:33-36 | Byte 3 of the encoded line is 1 if and only if the first token is `ADD`. It is 0 in every other case, including lines with no token. |
| Encoder.BlankLineIsNoOp | src/main.rs:31-35 | An empty or all-whitespace line encodes to the word 0 (no-op, no operands). |
| Encoder.Literal | src/main.rs:45-55 | An operand token's value is not 0 only when the token parses to that value. When it parses to a value below 256, that value is it. So a failed parse and a value of 256 or more both give 0. LiteralOfDecimal states it for every number. |
| Encoder.Operand | src/main.rs:41-44 | Operand k is token k+1 of the line, the first token being the mnemonic. A nonzero operand comes from a token that is present and parses to that value. OperandByte states where it lands in the word. |
| Encoder.EncodeLine | src/main.rs:29-60 | The reference definition of `encode`: the op-code and the three operands of the line's tokens, packed into the four bytes. Its contract is stated by OpCodeByte, OperandByte and EncodeDisassemble, and Encode is proved equal to it. |
| Encoder.OperandByte | src/main.rs:40-57 | Byte 2-k of the word is operand k: the token's `u32` value when it parses and is below 256, else 0. It is also 0 when the line has fewer than k+2 tokens. |
| Encoder.OperandRoundTrip | src/main.rs:45-46 | A token that parses to n < 256 at operand position k is found again as byte 2-k of the word. |
| Encoder.LiteralOfDecimal | src/main.rs:45-55 | The operand value of the decimal spelling of n is n below 256, and 0 from 256 on. There is no reduction modulo 256, including past 2^32. |
| Encoder.BadOperandsAreZero | src/main.rs:45-55 | `300` (too large), `R1` (a register name), `-3` (negative), the empty string and a lone `+` all give the operand value 0, although 300 mod 256 is not 0. |
| Encoder.LiteralSpellings | src/main.rs:45-46 | `+7` and `007` are read as 7. |
| Encoder.LiteralBoundary | src/main.rs:46-50 | `255` is kept as 255 and `256` gives 0. |
| Encoder.RegisterOperandKeepsPosition | src/main.rs:41-57 | `ADD R1 2 3` encodes to 0x01000203: the rejected `R1` still takes byte 2, and 2 and 3 keep bytes 1 and 0. |
| Encoder.OversizedOperandKeepsPosition | src/main.rs:45-57 | `ADD 300 2 3` encodes to 0x01000203: the oversized literal also takes its position. |
| Encoder.ExtraTokensIgnored | src/main.rs:39-44 | Once a line has four tokens, appending any whitespace and any further text leaves its word unchanged. |
| Encoder.FirstTokenIsMnemonic | src/main.rs:33-44 | The first token is never an operand, even when it is a number: `5 6 7` encodes to 0x00060700. |
| Encoder.EncodeJoin | src/main.rs:29-60 | Four words separated by single spaces encode to the packed op-code of the first word and the operand values of the other three. |
| Encoder.EncodeSpelled | src/main.rs:29-60 | A mnemonic followed by three bytes spelt in decimal encodes to the word holding those bytes and the mnemonic's op-code. |
| Encoder.OperandBitsStep | src/main.rs:56 | Each or-assignment of `literal << (i * 8)` into `args` adds the operand's byte at byte i of the accumulator without disturbing the bytes already there. |
| Encoder.OperandBitsComplete | src/main.rs:40-44 | When the loop stops, by the early `break` or after three operands, the accumulator holds all three operand fields of the line, a missing operand counting as 0. |
| Encoder.EncodeResult | src/main.rs:59 | Or-ing `validate(op << 24)` with `args` gives the word `EncodeLine` gives, when `op` is the op-code of the first token and `args` holds the three operands. |
| Encoder.PackOpCode | src/main.rs:59 | Or-ing the op-code shifted by 24 onto the three operand bytes gives the packed word. |
| Encoder.WordShape | src/main.rs:56-59 | The word is `validate(op << 24)` or-ed with `args`, where `op` is the op-code of the first token and `args` holds the three operands of the line. `args` is below 2^24, `op << 24` sets no bit below 24 and `args` sets none from 24 up. The op-code byte is 0 or 1, so the word is below 2^25. |
| Encoder.EncodesAdd123 | src/main.rs:11 | `ADD 1 2 3` encodes to 0x01010203 = 16843267. |
| Encoder.EncodesAdd001 | src/main.rs:12 | `ADD 0 0 1` encodes to 0x01000001 = 16777217. |
| Encoder.SmallWord | src/main.rs:59 | A word is below 2^25 exactly when its op-code byte is 0 or 1. |
| Encoder.EncodeDisassemble | src/main.rs:29-60 | Every word below 2^25 is the encoding of its disassembled line. With WordShape, the words `encode` can return are exactly those below 2^25. |
| Tokenizer.IsWhitespace | src/main.rs:31 | The characters with the Unicode White_Space property, which `char::is_whitespace` tests and at which `split_whitespace` cuts. NoTokensIffBlank and TokensOfSplit state its role in tokenising. |
| Tokenizer.WordLength | src/main.rs:31 | The first token ends at the first whitespace character or at the end of the line. |
| Tokenizer.Tokens | src/main.rs:31 | Every token of `split_whitespace` is non-empty and holds no whitespace. |
| Tokenizer.NoTokensIffBlank | src/main.rs:31-35 | A line has no tokens if and only if every character of it is whitespace. |
| Tokenizer.TokensOfSplit | src/main.rs:31 | Cutting a line at one whitespace character splits its tokens at that point. |
| Tokenizer.WordIsOneToken | src/main.rs:31 | A whitespace-free non-empty string is its own single token. |
| Tokenizer.TokensOfJoin | src/main.rs:31 | Words joined by single spaces tokenise back to the same words. |
| Numeral.ParseU32 | src/main.rs:45 | `str::parse::<u32>` gives a `u32`, and it accepts only a token made of an optional leading `+` and ASCII digits. ParseDecimal, ParseRejectsMinus and LeadingZero state which spellings are accepted and what they are read as. |
| Numeral.Decimal | src/main.rs:45 | The canonical spelling of n is a non-empty string of digits whose value is n, with no leading zero. |
| Numeral.ParseDecimal | src/main.rs:45-47 | Parsing inverts spelling, with or without a leading `+`, below 2^32. From 2^32 on, parsing fails with an overflow error. |
| Numeral.ParseRejectsMinus | src/main.rs:45-55 | A token starting with `-` is never a `u32`. |
| Numeral.LeadingZero | src/main.rs:45 | A leading zero does not change the value read. |
| Word.Shl | src/main.rs:56 | `x << n` on `u32`. When x is below 2^(32-n), no set bit is shifted out and the result is x times 2^n. |
| Word.Or | src/main.rs:56-59 | The bitwise or on `u32`. It is BitOr, whose bitwise meaning is stated by BitOrBits, and OrBound keeps it within 32 bits. |
| Word.BitOrBits | src/main.rs:56-59 | Bit k of BitOr(x, y), the or that `Or` computes, is set exactly when bit k of x or of y is set. |
| Word.OrDisjoint | src/main.rs:56-59 | Or-ing a value below 2^k into a multiple of 2^k is addition. |
| Word.OrBound | src/main.rs:56-59 | Or of two values below 2^n is below 2^n, so or-ing stays within 32 bits. |
| Word.SplitBits | src/main.rs:56-59 | A multiple of 2^n and a value below 2^n have no set bit in common. |
| Word.Pack | src/main.rs:22 | Bytes 3, 2, 1 and 0 of the packed word are the op-code and operands one, two and three. |
| Word.Unpack | src/main.rs:22 | Packing the fields read from any word gives that word back. |
| Word.PackInjective | src/main.rs:22 | Different fields give different words. |
| Word.PackSplit | src/main.rs:59 | A word is its op-code times 2^24 plus its operand part, which is below 2^24. |
| Word.PackShape | src/main.rs:59 | A word is the op-code shifted by 24 or-ed with its operand part, with no bit in common. |

## Left out

- `main` and `test` (src/main.rs:1-18) print the encodings of two lines. The printing is I/O; the two lines themselves are EncodesAdd123 and EncodesAdd001.
- Whitespace is the fixed list of characters with the Unicode White_Space property, which Rust's `char::is_whitespace` tests. No Unicode tables are modelled beyond that list; strings are sequences of characters.
- Words are integers below 2^32, not machine integers. `Shl` models `<<` on `u32` by reducing modulo 2^32, and `Or` models `|`. No shift in `encode` moves a set bit past bit 31, so no value is lost.
- The loop counter `i` is a Rust `i32`. It only takes the values 2 down to -1, so it is modelled as an unbounded integer.
- `split_whitespace` is a lazy iterator. It is modelled as the sequence of all tokens, read through a cursor; which tokens are read does not change.
- `validate` is modelled as the identity, as written. Rejecting invalid words, as its TODO comment says, is not implemented in the source and is not modelled.
- Register operands, further op-codes and condition codes are TODOs in the source (src/main.rs:24-27), so they are not modelled. A register name such as `R1` is simply an unparseable operand and gives 0.
- Disassemble is not in the source. It is a model-side inverse, used to show which words `encode` can produce.
