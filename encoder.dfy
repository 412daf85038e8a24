/** The instruction encoder of src/main.rs: a text line such as "ADD 1 2 3"
    becomes one 32-bit word holding an 8-bit op-code and three 8-bit
    operands (see module Word for the layout). */
module Encoder {
  import opened Tokenizer
  import opened Numeral
  import opened Word

  /** The op-code of ADD; every other mnemonic encodes the no-op, 0. */
  const ADD_OPCODE: u8 := 1

  /** `validate`: a placeholder that accepts every word unchanged. */
  function Validate(instruction: u32): (r: u32)
    ensures r == instruction
  {
    instruction
  }

  /** The op-code chosen by the first token of a line: exactly "ADD" gives 1;
      any other token, or no token at all, gives 0. */
  function OpCode(ts: seq<string>): (op: u8)
    ensures op == ADD_OPCODE <==> |ts| > 0 && ts[0] == "ADD"
    ensures op != ADD_OPCODE ==> op == 0
  {
    if |ts| > 0 && ts[0] == "ADD" then ADD_OPCODE else 0
  }

  /** The value an operand token contributes: its `u32` value when it parses
      and is below 256, otherwise 0 (an oversized literal is dropped, not
      reduced modulo 256). */
  function Literal(tok: string): (v: u8)
    ensures v != 0 ==> ParseU32(tok) == Some(v)
    ensures ParseU32(tok).Some? && ParseU32(tok).value < 256 ==> v == ParseU32(tok).value
  {
    match ParseU32(tok)
    case Some(num) => if num < 256 then num else 0
    case None => 0
  }

  /** Operand `k` (0, 1 or 2) of a token sequence: token `k + 1`, since
      token 0 is always the mnemonic; 0 when the line is too short. */
  function Operand(ts: seq<string>, k: nat): (v: u8)
    requires k < 3
    ensures v != 0 ==> k + 1 < |ts| && ParseU32(ts[k + 1]) == Some(v)
  {
    if k + 1 < |ts| then Literal(ts[k + 1]) else 0
  }

  /** The op-code and the three operands of a token sequence. */
  function FieldsOf(ts: seq<string>): Fields
  {
    Fields(OpCode(ts), Operand(ts, 0), Operand(ts, 1), Operand(ts, 2))
  }

  /** What `encode` computes from the tokens of a line: the op-code and the
      three operands in the four bytes of the word. */
  function EncodeTokens(ts: seq<string>): u32
  {
    Pack(FieldsOf(ts))
  }

  /** What `encode` computes from a line. */
  function EncodeLine(line: string): u32
  {
    EncodeTokens(Tokens(line))
  }

  /** The operand bits once the first `count` of the bytes `a`, `b`, `c`
      are in: `a` in byte 2, `b` in byte 1, `c` in byte 0. */
  ghost function OperandBits(a: u8, b: u8, c: u8, count: nat): nat
  {
    (if count > 0 then a * 0x1_0000 else 0) +
    (if count > 1 then b * 0x100 else 0) +
    (if count > 2 then c else 0)
  }

  /** Or-ing the byte for position `i`, shifted into byte `i`, adds it to
      the bits gathered so far, as none of their bits overlap. */
  lemma OperandBitsStep(a: u8, b: u8, c: u8, i: int, value: u32)
    requires 0 <= i <= 2
    requires value == if i == 2 then a else if i == 1 then b else c
    ensures OperandBits(a, b, c, 2 - i) < WORD_LIMIT
    ensures Or(OperandBits(a, b, c, 2 - i), Shl(value, i * 8)) == OperandBits(a, b, c, 3 - i)
  {
    Pow2Bytes();
    if i == 2 {
      FirstOperandStep(a, b, c);
    } else if i == 1 {
      SecondOperandStep(a, b, c);
    } else {
      ThirdOperandStep(a, b, c);
    }
  }

  lemma FirstOperandStep(a: u8, b: u8, c: u8)
    ensures Or(OperandBits(a, b, c, 0), Shl(a, 16)) == OperandBits(a, b, c, 1)
  {
    Pow2Bytes();
    assert Shl(a, 16) == a * 0x1_0000;
  }

  lemma SecondOperandStep(a: u8, b: u8, c: u8)
    ensures OperandBits(a, b, c, 1) < WORD_LIMIT
    ensures Or(OperandBits(a, b, c, 1), Shl(b, 8)) == OperandBits(a, b, c, 2)
  {
    Pow2Bytes();
    assert Shl(b, 8) == b * 0x100;
    OrDisjoint(a, b * 0x100, 16);
  }

  lemma ThirdOperandStep(a: u8, b: u8, c: u8)
    ensures OperandBits(a, b, c, 2) < WORD_LIMIT
    ensures Or(OperandBits(a, b, c, 2), Shl(c, 0)) == OperandBits(a, b, c, 3)
  {
    Pow2Bytes();
    assert Shl(c, 0) == c;
    assert OperandBits(a, b, c, 2) == (a * 0x100 + b) * Pow2(8);
    OrDisjoint(a * 0x100 + b, c, 8);
  }

  /** Or-ing the shifted op-code onto all three operand bytes gives the
      packed word. */
  lemma PackOpCode(op: u8, a: u8, b: u8, c: u8)
    ensures OperandBits(a, b, c, 3) < WORD_LIMIT
    ensures Or(Shl(op, 24), OperandBits(a, b, c, 3)) == Pack(Fields(op, a, b, c))
  {
    Pow2Bytes();
    assert Shl(op, 24) == op * Pow2(24);
    OrDisjoint(op, OperandBits(a, b, c, 3), 24);
  }

  /** The operand bits after the loop: once there are no more tokens, or
      all three operands are in, the operands still missing are 0. */
  lemma OperandBitsComplete(tokens: seq<string>, next: nat, i: int)
    requires -1 <= i <= 2 && next <= |tokens|
    requires next == if tokens == [] then 0 else 3 - i
    requires i >= 0 ==> next >= |tokens|
    ensures OperandBits(Operand(tokens, 0), Operand(tokens, 1), Operand(tokens, 2), 2 - i) ==
      OperandBits(Operand(tokens, 0), Operand(tokens, 1), Operand(tokens, 2), 3)
  {
  }

  /** The word is the validated, shifted op-code or-ed with all the operand
      bits. */
  lemma EncodeResult(instruction: string, op: u32, args: u32, w: u32)
    requires var tokens := Tokens(instruction);
      op == OpCode(tokens) &&
      args == OperandBits(Operand(tokens, 0), Operand(tokens, 1), Operand(tokens, 2), 3)
    requires w == Or(Validate(Shl(op, 3 * 8)), args)
    ensures w == EncodeLine(instruction)
  {
    var tokens := Tokens(instruction);
    PackOpCode(OpCode(tokens), Operand(tokens, 0), Operand(tokens, 1), Operand(tokens, 2));
  }

  /** `encode`: reads the mnemonic, then at most three operands, shifting
      operand `2 - i` into byte `i` of the accumulator. The token iterator
      is the sequence `tokens` with its cursor `next`. */
  method Encode(instruction: string) returns (w: u32)
    ensures w == EncodeLine(instruction)
  {
    var tokens := Tokens(instruction);
    var next := 0;
    var op: u32;
    if next < |tokens| {
      op := if tokens[next] == "ADD" then ADD_OPCODE else 0;
      next := next + 1;
    } else {
      op := 0;
    }
    ghost var a, b, c := Operand(tokens, 0), Operand(tokens, 1), Operand(tokens, 2);
    var args: u32 := 0;
    var i: int := 2;
    while i >= 0
      invariant -1 <= i <= 2
      invariant next <= |tokens|
      invariant next == if tokens == [] then 0 else 3 - i
      invariant args == OperandBits(a, b, c, 2 - i)
    {
      if next >= |tokens| {
        break;
      }
      var literal := tokens[next];
      next := next + 1;
      var value: u32 := Literal(literal);
      OperandBitsStep(a, b, c, i, value);
      args := Or(args, Shl(value, i * 8));
      i := i - 1;
    }
    OperandBitsComplete(tokens, next, i);
    w := Or(Validate(Shl(op, 3 * 8)), args);
    EncodeResult(instruction, op, args, w);
  }

  // ---------------------------------------------------------------------
  // The op-code byte

  /** The op-code byte is 1 exactly when the first token is "ADD", and 0
      otherwise, including for an empty or whitespace-only line. */
  lemma OpCodeByte(line: string)
    ensures ByteAt(EncodeLine(line), 3) == 1 <==> |Tokens(line)| > 0 && Tokens(line)[0] == "ADD"
    ensures ByteAt(EncodeLine(line), 3) == 0 <==> !(|Tokens(line)| > 0 && Tokens(line)[0] == "ADD")
  {
  }

  /** A blank line encodes the no-op word 0. */
  lemma BlankLineIsNoOp(line: string)
    requires forall i :: 0 <= i < |line| ==> IsWhitespace(line[i])
    ensures EncodeLine(line) == 0
  {
    NoTokensIffBlank(line);
  }

  // ---------------------------------------------------------------------
  // The operand bytes

  /** Operand `k` lands in byte `2 - k`: a literal below 256 is stored
      exactly; a token that does not parse, or parses to 256 or more,
      stores 0; a missing operand stores 0. */
  lemma OperandByte(line: string, k: nat)
    requires k < 3
    ensures var ts := Tokens(line);
      ByteAt(EncodeLine(line), 2 - k) ==
        if k + 1 < |ts| && ParseU32(ts[k + 1]).Some? && ParseU32(ts[k + 1]).value < 256
        then ParseU32(ts[k + 1]).value
        else 0
  {
    var ts := Tokens(line);
    var w := EncodeLine(line);
    assert ByteAt(w, 2 - k) == Operand(ts, k);
  }

  /** A decimal literal below 256 given as operand `k` round-trips through
      byte `2 - k` of the word. */
  lemma OperandRoundTrip(line: string, k: nat, n: nat)
    requires k < 3 && k + 1 < |Tokens(line)|
    requires ParseU32(Tokens(line)[k + 1]) == Some(n) && n < 256
    ensures ByteAt(EncodeLine(line), 2 - k) == n
  {
    OperandByte(line, k);
  }

  /** A numeral is a single token. */
  lemma DecimalIsWord(n: nat)
    ensures IsWord(Decimal(n))
  {
    var ds := Decimal(n);
    forall i | 0 <= i < |ds| ensures !IsWhitespace(ds[i]) {
      assert IsDigit(ds[i]);
    }
  }

  /** The operand value of a decimal numeral: the number itself below 256,
      else 0. */
  lemma LiteralOfDecimal(n: nat)
    ensures Literal(Decimal(n)) == if n < 256 then n else 0
  {
    ParseDecimal(n);
  }

  /** A one-digit numeral is a word and its own operand value. */
  lemma SmallLiteral(n: nat)
    requires n < 10
    ensures Decimal(n) == ['0' + n as char]
    ensures IsWord(Decimal(n)) && Literal(Decimal(n)) == n
  {
    DecimalIsWord(n);
    LiteralOfDecimal(n);
  }

  /** Bad operand tokens give 0 and do not wrap: an oversized literal
      such as 300, a register name such as R1 and a negative number such as
      -3 all contribute 0. */
  lemma BadOperandsAreZero()
    ensures Literal("300") == 0 && 300 % 256 != 0
    ensures Literal("R1") == 0
    ensures Literal("-3") == 0
    ensures Literal("") == 0 && Literal("+") == 0
  {
    assert Literal("300") == 0 by {
      LiteralOfDecimal(300);
      assert Decimal(300) == "300";
    }
    assert Literal("R1") == 0 by {
      assert !IsDigit("R1"[0]);
    }
    assert Literal("-3") == 0 by {
      ParseRejectsMinus("-3");
    }
    assert Literal("+") == 0 by {
      assert !IsDigit("+"[0]);
    }
  }

  /** Accepted spellings: an optional `+` and leading zeros. */
  lemma LiteralSpellings()
    ensures Literal("+7") == 7
    ensures Literal("007") == 7
  {
    assert Literal("+7") == 7 by {
      ParseDecimal(7);
      assert Decimal(7) == "7";
      assert "+" + Decimal(7) == "+7";
    }
    LeadingZero("7");
    LeadingZero("07");
    assert "0" + "7" == "07" && "0" + "07" == "007";
  }

  /** 255 is the largest operand kept; 256 is dropped. */
  lemma LiteralBoundary()
    ensures Literal("255") == 255 && Literal("256") == 0
  {
    assert Literal("255") == 255 by {
      assert Decimal(255) == "255";
      LiteralOfDecimal(255);
    }
    assert Decimal(256) == "256";
    LiteralOfDecimal(256);
  }

  lemma JoinFour(w0: string, w1: string, w2: string, w3: string)
    ensures Join([w0, w1, w2, w3]) == w0 + " " + w1 + " " + w2 + " " + w3
  {
    var ts := [w0, w1, w2, w3];
    assert ts[1..] == [w1, w2, w3];
    assert ts[1..][1..] == [w2, w3];
    assert ts[1..][1..][1..] == [w3];
    assert Join([w2, w3]) == w2 + " " + w3;
    assert Join([w1, w2, w3]) == w1 + " " + (w2 + " " + w3);
    assert Join(ts) == w0 + " " + (w1 + " " + (w2 + " " + w3));
  }

  /** Four words separated by single spaces encode the first as the
      op-code and the other three as the operands. */
  lemma EncodeJoin(w0: string, w1: string, w2: string, w3: string)
    requires IsWord(w0) && IsWord(w1) && IsWord(w2) && IsWord(w3)
    ensures EncodeLine(w0 + " " + w1 + " " + w2 + " " + w3) ==
      Pack(Fields(if w0 == "ADD" then ADD_OPCODE else 0, Literal(w1), Literal(w2), Literal(w3)))
  {
    var ts := [w0, w1, w2, w3];
    assert forall k :: 0 <= k < 4 ==> ts[k] in {w0, w1, w2, w3};
    TokensOfJoin(ts);
    JoinFour(w0, w1, w2, w3);
    assert FieldsOf(ts) == Fields(if w0 == "ADD" then ADD_OPCODE else 0, Literal(w1), Literal(w2), Literal(w3));
  }

  /** The line spelling a mnemonic and three operands in decimal encodes
      to the word holding them, with the mnemonic's op-code. */
  lemma EncodeSpelled(mnemonic: string, a: u8, b: u8, c: u8)
    requires IsWord(mnemonic)
    ensures EncodeLine(mnemonic + " " + Decimal(a) + " " + Decimal(b) + " " + Decimal(c)) ==
      Pack(Fields(if mnemonic == "ADD" then ADD_OPCODE else 0, a, b, c))
  {
    DecimalIsWord(a);
    DecimalIsWord(b);
    DecimalIsWord(c);
    EncodeJoin(mnemonic, Decimal(a), Decimal(b), Decimal(c));
    LiteralOfDecimal(a);
    LiteralOfDecimal(b);
    LiteralOfDecimal(c);
  }

  /** A rejected operand still uses up its position: the operands behind it
      keep their own bytes, here behind a register name. */
  lemma RegisterOperandKeepsPosition()
    ensures EncodeLine("ADD R1 2 3") == 0x01_00_02_03
  {
    assert IsWord("ADD") && IsWord("R1");
    assert "ADD" + " " + "R1" + " " + "2" + " " + "3" == "ADD R1 2 3";
    assert Pack(Fields(1, 0, 2, 3)) == 0x01_00_02_03;
    BadOperandsAreZero();
    SmallLiteral(2);
    SmallLiteral(3);
    EncodeJoin("ADD", "R1", "2", "3");
  }

  /** The same behind an oversized literal. */
  lemma OversizedOperandKeepsPosition()
    ensures EncodeLine("ADD 300 2 3") == 0x01_00_02_03
  {
    assert IsWord("ADD") && IsWord("300");
    assert "ADD" + " " + "300" + " " + "2" + " " + "3" == "ADD 300 2 3";
    assert Pack(Fields(1, 0, 2, 3)) == 0x01_00_02_03;
    BadOperandsAreZero();
    SmallLiteral(2);
    SmallLiteral(3);
    EncodeJoin("ADD", "300", "2", "3");
  }

  /** Tokens after the third operand are ignored. */
  lemma ExtraTokensIgnored(line: string, c: char, rest: string)
    requires IsWhitespace(c)
    requires |Tokens(line)| >= 4
    ensures EncodeLine(line + [c] + rest) == EncodeLine(line)
  {
    TokensOfSplit(line, c, rest);
    var ts := Tokens(line);
    var us := ts + Tokens(rest);
    assert us[..4] == ts[..4];
    assert OpCode(us) == OpCode(ts);
    assert forall k :: 0 <= k < 3 ==> Operand(us, k) == Operand(ts, k);
  }

  /** The first token is always the mnemonic and never an operand, even
      when it is a number. */
  lemma FirstTokenIsMnemonic()
    ensures EncodeLine("5 6 7") == 0x00_06_07_00
  {
    assert Decimal(5) == "5" && Decimal(6) == "6" && Decimal(7) == "7";
    DecimalIsWord(5);
    DecimalIsWord(6);
    DecimalIsWord(7);
    LiteralOfDecimal(6);
    LiteralOfDecimal(7);
    var ts := ["5", "6", "7"];
    TokensOfJoin(ts);
    assert Join(ts) == "5 6 7";
  }

  // ---------------------------------------------------------------------
  // Shape of the word

  /** The word is `validate(op << 24) | args`, where `op` is the op-code
      of the first token and `args` holds the three operands: the op-code
      sets no bit below 24 and `args` none at or above it. Since the op-code
      is 0 or 1, every word is below 2^25. */
  lemma WordShape(line: string)
    ensures var ts := Tokens(line);
      var op := OpCode(ts);
      var args := OperandBits(Operand(ts, 0), Operand(ts, 1), Operand(ts, 2), 3);
      args < 0x100_0000 &&
      EncodeLine(line) == Or(Validate(Shl(op, 24)), args) &&
      (forall k: nat :: Bit(Shl(op, 24), k) ==> k >= 24) &&
      (forall k: nat :: Bit(args, k) ==> k < 24)
    ensures ByteAt(EncodeLine(line), 3) <= 1 && EncodeLine(line) < 0x200_0000
  {
    var ts := Tokens(line);
    var op, a, b, c := OpCode(ts), Operand(ts, 0), Operand(ts, 1), Operand(ts, 2);
    var args := OperandBits(a, b, c, 3);
    assert EncodeLine(line) == Pack(Fields(op, a, b, c));
    PackOpCode(op, a, b, c);
    Pow2Bytes();
    assert Shl(op, 24) == op * Pow2(24);
    SplitBits(op, args, 24);
    PackSplit(Fields(op, a, b, c));
  }

  // ---------------------------------------------------------------------
  // The two lines the program encodes

  lemma EncodesAdd123()
    ensures EncodeLine("ADD 1 2 3") == 0x01_01_02_03
    ensures EncodeLine("ADD 1 2 3") == 16843267
  {
    assert "ADD" + " " + "1" + " " + "2" + " " + "3" == "ADD 1 2 3";
    assert Pack(Fields(1, 1, 2, 3)) == 0x01_01_02_03;
    SmallLiteral(1);
    SmallLiteral(2);
    SmallLiteral(3);
    EncodeJoin("ADD", "1", "2", "3");
  }

  lemma EncodesAdd001()
    ensures EncodeLine("ADD 0 0 1") == 0x01_00_00_01
    ensures EncodeLine("ADD 0 0 1") == 16777217
  {
    assert "ADD" + " " + "0" + " " + "0" + " " + "1" == "ADD 0 0 1";
    assert Pack(Fields(1, 0, 0, 1)) == 0x01_00_00_01;
    SmallLiteral(0);
    SmallLiteral(1);
    EncodeJoin("ADD", "0", "0", "1");
  }

  // ---------------------------------------------------------------------
  // Every word below 2^25 is the encoding of some line

  /** A word is below 2^25 exactly when its op-code byte is 0 or 1. */
  lemma SmallWord(w: u32)
    ensures w < 0x200_0000 <==> ByteAt(w, 3) <= 1
  {
    var f := Unpack(w);
    assert w == ((f.op * 0x100 + f.arg1) * 0x100 + f.arg2) * 0x100 + f.arg3;
    assert ((f.arg1 * 0x100) + f.arg2) * 0x100 + f.arg3 < 0x100_0000;
  }

  /** A canonical line for a word: its mnemonic, ADD for op-code 1 and
      NOP for any other, and its three operand bytes in decimal. */
  function Disassemble(w: u32): (line: string)
  {
    (if ByteAt(w, 3) == ADD_OPCODE then "ADD" else "NOP") + " " +
      Decimal(ByteAt(w, 2)) + " " + Decimal(ByteAt(w, 1)) + " " + Decimal(ByteAt(w, 0))
  }

  /** Encoding inverts disassembly: together with WordShape, the words
      `encode` can produce are exactly those below 2^25. */
  lemma EncodeDisassemble(w: u32)
    requires w < 0x200_0000
    ensures EncodeLine(Disassemble(w)) == w
  {
    var f := Unpack(w);
    SmallWord(w);
    var mnemonic := if f.op == ADD_OPCODE then "ADD" else "NOP";
    assert IsWord(mnemonic);
    EncodeSpelled(mnemonic, f.arg1, f.arg2, f.arg3);
  }
}
