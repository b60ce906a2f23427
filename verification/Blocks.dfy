/**
 The disk of the file system: blocks of bytes, the bitmap of allocated blocks, and the numbers that
 files keep of their blocks, directly and in one indirect block.
 */
module Blocks {

  const BLOCK_SIZE: nat := 512
  const BLOCK_NUM: nat := 32768
  const INODE_NUM: nat := 1024
  /** Bitmap bits per block. */
  const BPB: nat := 4096
  const NDIRECT: nat := 100
  const NINDIRECT: nat := 128
  const START_OF_DATA_BLOCK: nat := 1036
  const MAX_FILE: nat := 116736

  type byte = x: int | 0 <= x < 256

  type Block = b: seq<byte> | |b| == BLOCK_SIZE witness seq(BLOCK_SIZE, _ => 0)

  /** The bitmap block of a block, and the inode block of an inode. */
  function BBlock(b: nat): nat {
    b / BPB + 2
  }

  function IBlock(i: nat): nat {
    BLOCK_NUM / BPB + i + 3
  }

  /** Bitmap, inode table and data do not overlap. */
  lemma Regions(b: nat, i: nat)
    requires b < BLOCK_NUM && i < INODE_NUM
    ensures BBlock(b) < IBlock(i) < START_OF_DATA_BLOCK
  {
  }

  predicate IsData(b: nat) {
    START_OF_DATA_BLOCK <= b < BLOCK_NUM
  }

  // ---- Bits -------------------------------------------------------------------------------------------

  /** Bit k, counted from the least. */
  predicate BitOf(x: nat, k: nat) {
    if k == 0 then x % 2 == 1 else BitOf(x / 2, k - 1)
  }

  /** x ^ (1 << k) */
  function Flipped(x: nat, k: nat): nat {
    if k == 0 then (if x % 2 == 1 then x - 1 else x + 1) else x % 2 + 2 * Flipped(x / 2, k - 1)
  }

  /** x | (1 << k) */
  function WithBit(x: nat, k: nat): nat {
    if k == 0 then (if x % 2 == 1 then x else x + 1) else x % 2 + 2 * WithBit(x / 2, k - 1)
  }

  lemma {:induction false} FlippedBit(x: nat, k: nat, j: nat)
    ensures BitOf(Flipped(x, k), j) <==> if j == k then !BitOf(x, k) else BitOf(x, j)
  {
    if k > 0 && j > 0 {
      FlippedBit(x / 2, k - 1, j - 1);
      assert Flipped(x, k) / 2 == Flipped(x / 2, k - 1);
    }
  }

  lemma {:induction false} WithBitBit(x: nat, k: nat, j: nat)
    ensures BitOf(WithBit(x, k), j) <==> j == k || BitOf(x, j)
  {
    if k > 0 && j > 0 {
      WithBitBit(x / 2, k - 1, j - 1);
      assert WithBit(x, k) / 2 == WithBit(x / 2, k - 1);
    }
  }

  function Pow2(n: nat): nat {
    if n == 0 then 1 else 2 * Pow2(n - 1)
  }

  lemma {:induction false} BitsFit(x: nat, k: nat, n: nat)
    requires k < n && x < Pow2(n)
    ensures Flipped(x, k) < Pow2(n) && WithBit(x, k) < Pow2(n)
  {
    var half := Pow2(n - 1);
    assert Pow2(n) == 2 * half;
    if k > 0 {
      assert x / 2 < half;
      BitsFit(x / 2, k - 1, n - 1);
      assert Flipped(x, k) == x % 2 + 2 * Flipped(x / 2, k - 1);
      assert WithBit(x, k) == x % 2 + 2 * WithBit(x / 2, k - 1);
    }
  }

  lemma ByteBits(x: byte, k: nat)
    requires k < 8
    ensures Flipped(x, k) < 256 && WithBit(x, k) < 256
  {
    assert Pow2(8) == 256 by {
      assert Pow2(4) == 16;
    }
    BitsFit(x, k, 8);
  }

  // ---- The bitmap ----------------------------------------------------------------------------------------

  predicate Marked(blocks: seq<Block>, b: nat)
    requires |blocks| == BLOCK_NUM && b < BLOCK_NUM
  {
    BitOf(blocks[BBlock(b)][b % BPB / 8], b % BPB % 8)
  }

  function Set(block: Block, k: nat): Block
    requires k < BPB
  {
    ByteBits(block[k / 8], k % 8);
    block[k / 8 := WithBit(block[k / 8], k % 8)]
  }

  function Toggle(block: Block, k: nat): Block
    requires k < BPB
  {
    ByteBits(block[k / 8], k % 8);
    block[k / 8 := Flipped(block[k / 8], k % 8)]
  }

  lemma SetMarks(blocks: seq<Block>, b: nat, c: nat)
    requires |blocks| == BLOCK_NUM && b < BLOCK_NUM && c < BLOCK_NUM
    ensures Marked(blocks[BBlock(b) := Set(blocks[BBlock(b)], b % BPB)], c) <==> c == b || Marked(blocks, c)
  {
    WithBitBit(blocks[BBlock(b)][b % BPB / 8], b % BPB % 8, c % BPB % 8);
    assert c / BPB == b / BPB && c % BPB / 8 == b % BPB / 8 && c % BPB % 8 == b % BPB % 8 ==> c == b;
  }

  lemma ToggleMarks(blocks: seq<Block>, b: nat, c: nat)
    requires |blocks| == BLOCK_NUM && b < BLOCK_NUM && c < BLOCK_NUM
    ensures Marked(blocks[BBlock(b) := Toggle(blocks[BBlock(b)], b % BPB)], c) <==> if c == b then !Marked(blocks, b) else Marked(blocks, c)
  {
    FlippedBit(blocks[BBlock(b)][b % BPB / 8], b % BPB % 8, c % BPB % 8);
    assert c / BPB == b / BPB && c % BPB / 8 == b % BPB / 8 && c % BPB % 8 == b % BPB % 8 ==> c == b;
  }

  /** For data blocks the bitmap says what is in use. */
  ghost predicate BitmapOk(blocks: seq<Block>, used: set<nat>) {
    && |blocks| == BLOCK_NUM
    && (forall b | b in used :: IsData(b))
    && forall b: nat {:trigger Marked(blocks, b)} | b < BLOCK_NUM && IsData(b) :: Marked(blocks, b) <==> b in used
  }

  lemma SetKeepsBitmap(blocks: seq<Block>, used: set<nat>, b: nat)
    requires BitmapOk(blocks, used) && b < BLOCK_NUM && IsData(b)
    ensures BitmapOk(blocks[BBlock(b) := Set(blocks[BBlock(b)], b % BPB)], used + {b})
  {
    var blocks' := blocks[BBlock(b) := Set(blocks[BBlock(b)], b % BPB)];
    forall c: nat | c < BLOCK_NUM && IsData(c) ensures Marked(blocks', c) <==> c in used + {b} {
      SetMarks(blocks, b, c);
    }
  }

  /**
   The bit is flipped, not cleared: right for a block in use, without effect on data blocks for a block that
   is not one, such as block 0, and wrong for a data block that is free.
   */
  lemma ToggleKeepsBitmap(blocks: seq<Block>, used: set<nat>, b: nat)
    requires BitmapOk(blocks, used) && b < BLOCK_NUM
    ensures BitmapOk(blocks[BBlock(b) := Toggle(blocks[BBlock(b)], b % BPB)], used - {b}) <==> (IsData(b) ==> b in used)
  {
    var blocks' := blocks[BBlock(b) := Toggle(blocks[BBlock(b)], b % BPB)];
    if IsData(b) && b !in used {
      ToggleMarks(blocks, b, b);
      assert Marked(blocks', b);
    } else {
      forall c: nat | c < BLOCK_NUM && IsData(c) ensures Marked(blocks', c) <==> c in used - {b} {
        ToggleMarks(blocks, b, c);
      }
    }
  }

  /** Data blocks outside some set are as they were. */
  ghost predicate SameData(blocks: seq<Block>, blocks': seq<Block>, except: set<nat>) {
    && |blocks| == |blocks'| == BLOCK_NUM
    && forall b: nat | b < BLOCK_NUM && IsData(b) && b !in except :: blocks'[b] == blocks[b]
  }

  // ---- Numbers in an indirect block ---------------------------------------------------------------------------

  /** The j-th number, least byte first. */
  function NumberAt(block: Block, j: nat): nat
    requires j < NINDIRECT
  {
    var b0: nat, b1: nat, b2: nat, b3: nat := block[4 * j], block[4 * j + 1], block[4 * j + 2], block[4 * j + 3];
    b0 + 256 * b1 + 65536 * b2 + 16777216 * b3
  }

  /** The bytes of a number as the write loop takes them off: low byte, then the rest. */
  function BytesOf(n: nat): (bs: seq<byte>)
    ensures |bs| == 4
  {
    var n1 := n / 256;
    var n2 := n1 / 256;
    var n3 := n2 / 256;
    [n % 256, n1 % 256, n2 % 256, n3 % 256]
  }

  lemma NumberRoundTrip(block: Block, j: nat, n: nat)
    requires j < NINDIRECT && n < 0x1_0000_0000 && block[4 * j..4 * j + 4] == BytesOf(n)
    ensures NumberAt(block, j) == n
  {
    var bs := block[4 * j..4 * j + 4];
    assert block[4 * j] == bs[0] && block[4 * j + 1] == bs[1] && block[4 * j + 2] == bs[2] && block[4 * j + 3] == bs[3];
  }
}
