/** The frame loop of the command-line parser (Parser.cs): from offset 0, build a
    block at the cursor and step over its length plus the two bytes of its length
    field, for as long as the cursor is inside the file. */
module Parsing {
  import opened Wrappers
  import opened Bytes
  import opened Blocks

  /** The bytes the loop steps over for `blocks`: each block's length plus 2. */
  function Span(blocks: seq<Block>): int
  {
    if blocks == [] then 0 else blocks[0].length + 2 + Span(blocks[1..])
  }

  /** The constructor `Block(byte[] file, int index)` is given as `readBlock`; the
      loop relies on the lengths it produces never being negative (they are read
      as unsigned 16-bit numbers). */
  ghost predicate NonNegativeLengths<E>(file: seq<Byte>, readBlock: (seq<Byte>, nat) -> Result<Block, E>)
  {
    forall i: nat :: readBlock(file, i).Ok? ==> readBlock(file, i).value.length >= 0
  }

  /** The blocks the loop collects from `cursor` on, or the exception of the first
      block constructor that throws. */
  function Frames<E>(file: seq<Byte>, cursor: nat, readBlock: (seq<Byte>, nat) -> Result<Block, E>)
    : Result<seq<Block>, E>
    requires NonNegativeLengths(file, readBlock)
    decreases |file| - cursor
  {
    if cursor >= |file| then Ok([])
    else
      var block :- readBlock(file, cursor);
      var rest :- Frames(file, cursor + block.length + 2, readBlock);
      Ok([block] + rest)
  }

  /** An independent description of the loop's result: block i is the block built
      at `cursor` plus the span of the blocks before it, each such offset is still
      inside the file, and the span of all of them reaches or passes its end. */
  ghost predicate IsFraming<E>(file: seq<Byte>, cursor: nat, readBlock: (seq<Byte>, nat) -> Result<Block, E>,
                               blocks: seq<Block>)
  {
    && (forall i :: 0 <= i < |blocks| ==> BuiltAt(file, cursor + Span(blocks[..i]), readBlock, blocks[i]))
    && cursor + Span(blocks) >= |file|
  }

  /** `block` is what the constructor builds at offset `at`, an offset inside the file. */
  ghost predicate BuiltAt<E>(file: seq<Byte>, at: int, readBlock: (seq<Byte>, nat) -> Result<Block, E>, block: Block)
  {
    0 <= at < |file| && readBlock(file, at) == Ok(block)
  }

  lemma {:induction false} SpanAppend(a: seq<Block>, b: seq<Block>)
    ensures Span(a + b) == Span(a) + Span(b)
  {
    if a != [] {
      assert (a + b)[0] == a[0];
      assert (a + b)[1..] == a[1..] + b;
      SpanAppend(a[1..], b);
    } else {
      assert a + b == b;
    }
  }

  /** The span of the first i + 1 blocks is the first block's step plus the span of
      the next i. */
  lemma SpanCons(blocks: seq<Block>, i: nat)
    requires i < |blocks|
    ensures Span(blocks[..i + 1]) == blocks[0].length + 2 + Span(blocks[1..][..i])
  {
    assert blocks[..i + 1][0] == blocks[0];
    assert blocks[..i + 1][1..] == blocks[1..][..i];
  }

  /** Block after block, the offsets at which the loop builds them strictly increase:
      even a block of length 0 moves the cursor by 2. */
  lemma {:induction false} StartsIncrease(blocks: seq<Block>, i: nat, j: nat)
    requires forall k :: 0 <= k < |blocks| ==> blocks[k].length >= 0
    requires i < j <= |blocks|
    ensures Span(blocks[..i]) + 2 <= Span(blocks[..j])
  {
    SpanAppend(blocks[..j - 1], [blocks[j - 1]]);
    assert blocks[..j] == blocks[..j - 1] + [blocks[j - 1]];
    assert Span([blocks[j - 1]]) == blocks[j - 1].length + 2 by {
      assert [blocks[j - 1]][1..] == [];
    }
    if i < j - 1 {
      StartsIncrease(blocks, i, j - 1);
    }
  }

  /** Offsets of the blocks after the first, counted from `cursor` or from just past
      the first block, agree. */
  lemma FramingShift(cursor: nat, blocks: seq<Block>, i: nat)
    requires i < |blocks| - 1
    ensures cursor + Span(blocks[..i + 1]) == cursor + blocks[0].length + 2 + Span(blocks[1..][..i])
    ensures blocks[i + 1] == blocks[1..][i]
  {
    SpanCons(blocks, i);
  }

  /** A framing from `cursor` starts with a block built at `cursor` and goes on with a
      framing from just past that block. */
  lemma FramingTail<E>(file: seq<Byte>, cursor: nat, readBlock: (seq<Byte>, nat) -> Result<Block, E>,
                       blocks: seq<Block>)
    requires blocks != [] && blocks[0].length >= 0
    requires IsFraming(file, cursor, readBlock, blocks)
    ensures cursor < |file| && readBlock(file, cursor) == Ok(blocks[0])
    ensures IsFraming(file, cursor + blocks[0].length + 2, readBlock, blocks[1..])
  {
    var next := cursor + blocks[0].length + 2;
    assert blocks[..0] == [];
    assert Span(blocks) == blocks[0].length + 2 + Span(blocks[1..]);
    forall i | 0 <= i < |blocks[1..]|
      ensures BuiltAt(file, next + Span(blocks[1..][..i]), readBlock, blocks[1..][i])
    {
      FramingShift(cursor, blocks, i);
      assert BuiltAt(file, cursor + Span(blocks[..i + 1]), readBlock, blocks[i + 1]);
    }
  }

  /** A block built at `cursor` followed by a framing from just past it is a framing
      from `cursor`. */
  lemma FramingCons<E>(file: seq<Byte>, cursor: nat, readBlock: (seq<Byte>, nat) -> Result<Block, E>,
                       blocks: seq<Block>)
    requires blocks != [] && blocks[0].length >= 0
    requires cursor < |file| && readBlock(file, cursor) == Ok(blocks[0])
    requires IsFraming(file, cursor + blocks[0].length + 2, readBlock, blocks[1..])
    ensures IsFraming(file, cursor, readBlock, blocks)
  {
    var next := cursor + blocks[0].length + 2;
    assert blocks[..0] == [];
    assert Span(blocks) == blocks[0].length + 2 + Span(blocks[1..]);
    forall i | 0 <= i < |blocks|
      ensures BuiltAt(file, cursor + Span(blocks[..i]), readBlock, blocks[i])
    {
      if i > 0 {
        FramingShift(cursor, blocks, i - 1);
        assert BuiltAt(file, next + Span(blocks[1..][..i - 1]), readBlock, blocks[1..][i - 1]);
      }
    }
  }

  /** One turn of the loop: from inside the file, the result is the block built at the
      cursor followed by the blocks from just past it. */
  lemma FramesStep<E>(file: seq<Byte>, cursor: nat, readBlock: (seq<Byte>, nat) -> Result<Block, E>,
                      blocks: seq<Block>)
    requires NonNegativeLengths(file, readBlock)
    requires cursor < |file| && readBlock(file, cursor).Ok?
    ensures var b := readBlock(file, cursor).value;
            Frames(file, cursor, readBlock) == Ok(blocks) <==>
              blocks != [] && blocks[0] == b && Frames(file, cursor + b.length + 2, readBlock) == Ok(blocks[1..])
  {
    var b := readBlock(file, cursor).value;
    var rest := Frames(file, cursor + b.length + 2, readBlock);
    if rest.Ok? && blocks != [] && blocks[0] == b && rest.value == blocks[1..] {
      assert [b] + rest.value == blocks;
    }
  }

  /** The loop's result is exactly the framing described by `IsFraming`, in both
      directions. */
  lemma {:induction false} FramesIsFraming<E>(file: seq<Byte>, cursor: nat,
                                              readBlock: (seq<Byte>, nat) -> Result<Block, E>, blocks: seq<Block>)
    requires NonNegativeLengths(file, readBlock)
    ensures Frames(file, cursor, readBlock) == Ok(blocks) <==> IsFraming(file, cursor, readBlock, blocks)
    decreases |file| - cursor
  {
    if blocks == [] {
      // both sides hold exactly when the cursor is already at or past the end
    } else if cursor >= |file| || readBlock(file, cursor) != Ok(blocks[0]) {
      FirstBlockMismatch(file, cursor, readBlock, blocks);
    } else {
      var next := cursor + blocks[0].length + 2;
      FramesStep(file, cursor, readBlock, blocks);
      FramesIsFraming(file, next, readBlock, blocks[1..]);
      FramingStep(file, cursor, readBlock, blocks);
    }
  }

  /** Past a first block built at the cursor, a framing from the cursor is exactly a
      framing of the remaining blocks from just past that block. */
  lemma FramingStep<E>(file: seq<Byte>, cursor: nat, readBlock: (seq<Byte>, nat) -> Result<Block, E>,
                       blocks: seq<Block>)
    requires blocks != [] && blocks[0].length >= 0
    requires cursor < |file| && readBlock(file, cursor) == Ok(blocks[0])
    ensures IsFraming(file, cursor, readBlock, blocks) <==>
            IsFraming(file, cursor + blocks[0].length + 2, readBlock, blocks[1..])
  {
    if IsFraming(file, cursor, readBlock, blocks) {
      FramingTail(file, cursor, readBlock, blocks);
    }
    if IsFraming(file, cursor + blocks[0].length + 2, readBlock, blocks[1..]) {
      FramingCons(file, cursor, readBlock, blocks);
    }
  }

  /** A sequence whose first block is not the one built at the cursor, or that starts
      at or past the end, is neither the loop's result nor a framing. */
  lemma FirstBlockMismatch<E>(file: seq<Byte>, cursor: nat, readBlock: (seq<Byte>, nat) -> Result<Block, E>,
                              blocks: seq<Block>)
    requires NonNegativeLengths(file, readBlock)
    requires blocks != [] && (cursor >= |file| || readBlock(file, cursor) != Ok(blocks[0]))
    ensures Frames(file, cursor, readBlock) != Ok(blocks)
    ensures !IsFraming(file, cursor, readBlock, blocks)
  {
    assert blocks[..0] == [];
    if cursor < |file| && readBlock(file, cursor).Ok? {
      FramesStep(file, cursor, readBlock, blocks);
    }
  }

  /** An empty file gives no blocks, whatever the block constructor: the loop body
      never runs. */
  lemma EmptyFileHasNoBlocks<E>(readBlock: (seq<Byte>, nat) -> Result<Block, E>)
    requires NonNegativeLengths([], readBlock)
    ensures Frames([], 0, readBlock) == Ok([])
    ensures IsFraming([], 0, readBlock, [])
  {
  }

  /** A last block that claims more bytes than the file has is kept: the loop only
      stops once the cursor is at or past the end, without checking that it stopped
      exactly there. */
  lemma OvershootAccepted<E>(readBlock: (seq<Byte>, nat) -> Result<Block, E>)
    requires forall f: seq<Byte>, i: nat :: readBlock(f, i) == Ok(Block(5, []))
    ensures Frames([0x05, 0x00, 0x01], 0, readBlock) == Ok([Block(5, [])])
    ensures Span([Block(5, [])]) == 7 > |[0x05, 0x00, 0x01]|
  {
    assert Frames([0x05, 0x00, 0x01], 7, readBlock) == Ok([]);
    assert [Block(5, [])] + [] == [Block(5, [])];
  }

  /** Prepends the blocks already collected to the result of the rest of the loop. */
  function Prepend<E>(done: seq<Block>, rest: Result<seq<Block>, E>): Result<seq<Block>, E>
  {
    match rest
    case Ok(blocks) => Ok(done + blocks)
    case Err(e) => Err(e)
  }

  lemma PrependNothing<E>(rest: Result<seq<Block>, E>)
    ensures Prepend([], rest) == rest
  {
    if rest.Ok? {
      assert [] + rest.value == rest.value;
    }
  }

  lemma PrependTwice<E>(done: seq<Block>, more: seq<Block>, rest: Result<seq<Block>, E>)
    ensures Prepend(done, Prepend(more, rest)) == Prepend(done + more, rest)
  {
    if rest.Ok? {
      assert done + (more + rest.value) == done + more + rest.value;
    }
  }

  /** The parser's state: the static field `_blocks`. */
  class Parser {
    var blocks: seq<Block>

    constructor ()
      ensures blocks == []
    {
      blocks := [];
    }

    /** The frame loop of `Parse`: `_blocks` is assigned once, after the loop, with
        every block in the order the loop built them; a block constructor that throws
        leaves it as it was. */
    method Parse<E>(file: seq<Byte>, readBlock: (seq<Byte>, nat) -> Result<Block, E>) returns (failure: Option<E>)
      requires NonNegativeLengths(file, readBlock)
      modifies this
      ensures failure.None? <==> Frames(file, 0, readBlock).Ok?
      ensures failure.None? ==> blocks == Frames(file, 0, readBlock).value
      ensures failure.None? ==> IsFraming(file, 0, readBlock, blocks)
      ensures failure.Some? ==> Frames(file, 0, readBlock) == Err(failure.value) && blocks == old(blocks)
    {
      var list: seq<Block> := [];
      var currentIndex: nat := 0;
      PrependNothing(Frames(file, 0, readBlock));
      while currentIndex < |file|
        invariant currentIndex == Span(list)
        invariant Frames(file, 0, readBlock) == Prepend(list, Frames(file, currentIndex, readBlock))
        invariant blocks == old(blocks)
        decreases |file| - currentIndex
      {
        match readBlock(file, currentIndex) {
          case Err(e) =>
            return Some(e);
          case Ok(block) =>
            SpanAppend(list, [block]);
            PrependTwice(list, [block], Frames(file, currentIndex + block.length + 2, readBlock));
            currentIndex := currentIndex + block.length + 2;
            list := list + [block];
        }
      }
      blocks := list;
      FramesIsFraming(file, 0, readBlock, blocks);
      return None;
    }
  }
}
