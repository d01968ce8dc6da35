/** The greedy text chunker `chunk_text_blocks`: consecutive text blocks are packed
    into chunks joined by newlines, a chunk is closed as soon as the next block does
    not fit under `maxLength`, and no block is ever split. */
module Chunker {
  import opened Strings

  /** The separator placed between the blocks of one chunk. */
  const NL: string := "\n"

  /** The default of the `max_length` argument, and the bound the driver passes for
      every article. */
  const DefaultMaxLength: int := 750

  /** The loop's two variables: the finished chunks and the chunk being built. */
  datatype Acc = Acc(chunks: seq<string>, current: string)

  /** One pass of the loop body for `block`. An empty accumulator takes the block as
      it is; otherwise the block is appended after a newline when the combined length
      is strictly below `maxLength`, and else the accumulator is pushed and restarted
      with the block. */
  function Step(acc: Acc, block: string, maxLength: int): Acc
  {
    if acc.current == "" then Acc(acc.chunks, block)
    else if |acc.current| + |block| + 1 < maxLength then Acc(acc.chunks, acc.current + NL + block)
    else Acc(acc.chunks + [acc.current], block)
  }

  /** The loop's state after it has processed all of `blocks`, from an empty start. */
  function Run(blocks: seq<string>, maxLength: int): Acc
  {
    if |blocks| == 0 then Acc([], "")
    else Step(Run(blocks[..|blocks| - 1], maxLength), blocks[|blocks| - 1], maxLength)
  }

  /** After the loop, a non-empty accumulator becomes the last chunk. */
  function Finish(acc: Acc): seq<string>
  {
    if acc.current == "" then acc.chunks else acc.chunks + [acc.current]
  }

  /** What `chunk_text_blocks(blocks, maxLength)` returns. */
  function Chunks(blocks: seq<string>, maxLength: int): seq<string>
  {
    Finish(Run(blocks, maxLength))
  }

  /** `chunk_text_blocks`: one forward pass over the blocks. */
  method ChunkTextBlocks(textBlocks: seq<string>, maxLength: int) returns (chunks: seq<string>)
    ensures chunks == Chunks(textBlocks, maxLength)
    ensures textBlocks == [] ==> chunks == []
    ensures forall i :: 0 <= i < |chunks| ==> chunks[i] != ""
    ensures |chunks| <= |textBlocks|
    ensures NonEmptyBlocks(textBlocks) ==>
      GreedyPartition(textBlocks, Partition(textBlocks, maxLength), maxLength) &&
      chunks == JoinEach(Partition(textBlocks, maxLength))
  {
    chunks := [];
    var current: string := "";
    for i := 0 to |textBlocks|
      invariant Acc(chunks, current) == Run(textBlocks[..i], maxLength)
    {
      var block := textBlocks[i];
      assert textBlocks[..i + 1][..i] == textBlocks[..i];
      if current == "" {
        current := block;
      } else if |current| + |block| + 1 < maxLength {
        current := current + NL + block;
      } else {
        chunks := chunks + [current];
        current := block;
      }
    }
    assert textBlocks[..|textBlocks|] == textBlocks;
    if current != "" {
      chunks := chunks + [current];
    }
    ChunksNonEmpty(textBlocks, maxLength);
    ChunkCount(textBlocks, maxLength);
    if NonEmptyBlocks(textBlocks) {
      ChunksArePartition(textBlocks, maxLength);
    }
  }

  // ---------------------------------------------------------------------------
  // Properties that hold for any list of blocks, empty blocks included

  /** Every finished chunk of the loop is non-empty: a chunk is pushed only when the
      accumulator is non-empty. */
  lemma {:induction false} RunChunksNonEmpty(blocks: seq<string>, maxLength: int)
    ensures forall i :: 0 <= i < |Run(blocks, maxLength).chunks| ==> Run(blocks, maxLength).chunks[i] != ""
  {
    if |blocks| > 0 {
      RunChunksNonEmpty(blocks[..|blocks| - 1], maxLength);
    }
  }

  /** No returned chunk is empty, even when some input blocks are. */
  lemma ChunksNonEmpty(blocks: seq<string>, maxLength: int)
    ensures forall i :: 0 <= i < |Chunks(blocks, maxLength)| ==> Chunks(blocks, maxLength)[i] != ""
  {
    RunChunksNonEmpty(blocks, maxLength);
  }

  /** Each chunk, finished or in progress, accounts for at least one block. */
  lemma {:induction false} RunCount(blocks: seq<string>, maxLength: int)
    ensures |Run(blocks, maxLength).chunks| + (if Run(blocks, maxLength).current == "" then 0 else 1) <= |blocks|
  {
    if |blocks| > 0 {
      RunCount(blocks[..|blocks| - 1], maxLength);
    }
  }

  /** There are never more chunks than blocks. */
  lemma ChunkCount(blocks: seq<string>, maxLength: int)
    ensures |Chunks(blocks, maxLength)| <= |blocks|
  {
    RunCount(blocks, maxLength);
  }

  /** A string of length at least `maxLength` in the loop state was never extended:
      it is one of the input blocks. */
  lemma {:induction false} RunOversizedIsBlock(blocks: seq<string>, maxLength: int)
    ensures forall i :: 0 <= i < |Run(blocks, maxLength).chunks| && |Run(blocks, maxLength).chunks[i]| >= maxLength
              ==> Run(blocks, maxLength).chunks[i] in blocks
    ensures var current := Run(blocks, maxLength).current;
      current != "" && |current| >= maxLength ==> current in blocks
  {
    if |blocks| > 0 {
      var prefix, block := blocks[..|blocks| - 1], blocks[|blocks| - 1];
      RunOversizedIsBlock(prefix, maxLength);
      assert forall b :: b in prefix ==> b in blocks;
      assert block in blocks;
      var acc := Run(prefix, maxLength);
      if acc.current != "" && |acc.current| + |block| + 1 < maxLength {
        assert Run(blocks, maxLength).current == acc.current + NL + block;
        assert |NL| == 1;
      } else {
        assert Run(blocks, maxLength).current == block;
      }
    }
  }

  /** The size bound: a chunk of length `maxLength` or more is a single input block,
      kept whole rather than split. */
  lemma OversizedChunkIsBlock(blocks: seq<string>, maxLength: int)
    ensures forall i :: 0 <= i < |Chunks(blocks, maxLength)| && |Chunks(blocks, maxLength)[i]| >= maxLength
              ==> Chunks(blocks, maxLength)[i] in blocks
  {
    RunOversizedIsBlock(blocks, maxLength);
  }

  /** Once an oversized block has been read it is the accumulator or a finished
      chunk: nothing fits after it, so it is pushed whole as soon as the next block
      arrives. */
  lemma {:induction false} RunKeepsOversizedBlock(blocks: seq<string>, maxLength: int, k: nat, j: nat)
    requires k < j <= |blocks| && blocks[k] != "" && |blocks[k]| >= maxLength
    ensures blocks[k] in Run(blocks[..j], maxLength).chunks || Run(blocks[..j], maxLength).current == blocks[k]
    decreases j
  {
    var prefix := blocks[..j - 1];
    assert blocks[..j][..j - 1] == prefix && blocks[..j][j - 1] == blocks[j - 1];
    var acc := Run(prefix, maxLength);
    assert Run(blocks[..j], maxLength) == Step(acc, blocks[j - 1], maxLength);
    if j > k + 1 {
      RunKeepsOversizedBlock(blocks, maxLength, k, j - 1);
      if acc.current == blocks[k] {
        assert Run(blocks[..j], maxLength).chunks == acc.chunks + [blocks[k]];
      } else {
        assert blocks[k] in acc.chunks;
      }
    }
  }

  /** The converse of the size bound: a non-empty block of length `maxLength` or more
      comes back as a chunk of its own, neither dropped nor split nor merged. */
  lemma OversizedBlockIsOwnChunk(blocks: seq<string>, maxLength: int, k: nat)
    requires k < |blocks| && blocks[k] != "" && |blocks[k]| >= maxLength
    ensures blocks[k] in Chunks(blocks, maxLength)
  {
    RunKeepsOversizedBlock(blocks, maxLength, k, |blocks|);
    assert blocks[..|blocks|] == blocks;
  }

  // ---------------------------------------------------------------------------
  // With non-empty blocks: the chunks are exactly the greedy partition

  predicate NonEmptyBlocks(blocks: seq<string>)
  {
    forall i :: 0 <= i < |blocks| ==> blocks[i] != ""
  }

  /** The groups laid end to end. */
  function Flatten(groups: seq<seq<string>>): seq<string>
  {
    if groups == [] then [] else groups[0] + Flatten(groups[1..])
  }

  /** Each group joined by newlines, as one chunk. */
  function JoinEach(groups: seq<seq<string>>): seq<string>
  {
    seq(|groups|, i requires 0 <= i < |groups| => Join(NL, groups[i]))
  }

  /** Every group is non-empty, a group of two or more blocks joins to fewer than
      `maxLength` characters, and the first block of every group but the first did not
      fit after the group before it. */
  predicate GreedyGroups(groups: seq<seq<string>>, maxLength: int)
  {
    && (forall i :: 0 <= i < |groups| ==> groups[i] != [])
    && (forall i :: 0 <= i < |groups| && |groups[i]| >= 2 ==> |Join(NL, groups[i])| < maxLength)
    && (forall i :: 0 <= i < |groups| - 1 ==> |Join(NL, groups[i])| + |groups[i + 1][0]| + 1 >= maxLength)
  }

  /** `groups` cuts `blocks` into consecutive runs that are greedy in the sense above. */
  predicate GreedyPartition(blocks: seq<string>, groups: seq<seq<string>>, maxLength: int)
  {
    Flatten(groups) == blocks && GreedyGroups(groups, maxLength)
  }

  lemma {:induction false} FlattenSnoc(groups: seq<seq<string>>, group: seq<string>)
    ensures Flatten(groups + [group]) == Flatten(groups) + group
  {
    if groups == [] {
      assert [group][1..] == [];
    } else {
      assert (groups + [group])[1..] == groups[1..] + [group];
      FlattenSnoc(groups[1..], group);
    }
  }

  /** Non-empty groups flatten to the empty list only when there are none. */
  lemma FlattenEmpty(groups: seq<seq<string>>)
    requires forall i :: 0 <= i < |groups| ==> groups[i] != []
    ensures Flatten(groups) == [] <==> groups == []
  {
    if groups != [] {
      assert |Flatten(groups)| >= |groups[0]| > 0;
    }
  }

  /** The loop's state seen as groups of blocks rather than strings. */
  datatype Grouped = Grouped(done: seq<seq<string>>, current: seq<string>)

  /** The decision of `Step`, recording the block in a group instead of a string. */
  ghost function GroupStep(g: Grouped, block: string, maxLength: int): Grouped
  {
    if g.current == [] then Grouped(g.done, [block])
    else if |Join(NL, g.current)| + |block| + 1 < maxLength then Grouped(g.done, g.current + [block])
    else Grouped(g.done + [g.current], [block])
  }

  /** The groups the loop builds, alongside the strings `Run` builds. */
  ghost function GroupRun(blocks: seq<string>, maxLength: int): Grouped
  {
    if |blocks| == 0 then Grouped([], [])
    else GroupStep(GroupRun(blocks[..|blocks| - 1], maxLength), blocks[|blocks| - 1], maxLength)
  }

  /** The groups behind the chunks of `blocks`. */
  ghost function Partition(blocks: seq<string>, maxLength: int): seq<seq<string>>
  {
    var g := GroupRun(blocks, maxLength);
    if g.current == [] then g.done else g.done + [g.current]
  }

  /** What the loop keeps true of its state, as groups and as strings. */
  ghost predicate GroupedInvariant(blocks: seq<string>, g: Grouped, acc: Acc, maxLength: int)
  {
    && (g.current == [] <==> blocks == [])
    && (blocks == [] ==> g.done == [])
    && Flatten(g.done) + g.current == blocks
    && acc.chunks == JoinEach(g.done)
    && acc.current == Join(NL, g.current)
    && (g.current != [] ==> g.current[0] != "")
    && GreedyGroups(g.done, maxLength)
    && (|g.current| >= 2 ==> |Join(NL, g.current)| < maxLength)
    && (g.done != [] ==> |Join(NL, g.done[|g.done| - 1])| + |g.current[0]| + 1 >= maxLength)
  }

  /** Closing the current group keeps the closed groups greedy. */
  lemma CloseGroup(done: seq<seq<string>>, current: seq<string>, next: string, maxLength: int)
    requires GreedyGroups(done, maxLength) && current != []
    requires |current| >= 2 ==> |Join(NL, current)| < maxLength
    requires done != [] ==> |Join(NL, done[|done| - 1])| + |current[0]| + 1 >= maxLength
    ensures GreedyGroups(done + [current], maxLength)
    ensures JoinEach(done + [current]) == JoinEach(done) + [Join(NL, current)]
  {
    var done' := done + [current];
    assert done'[|done|] == current;
    forall i | 0 <= i < |done'|
      ensures done'[i] != []
      ensures |done'[i]| >= 2 ==> |Join(NL, done'[i])| < maxLength
    {
      if i < |done| {
        assert done'[i] == done[i];
      }
    }
    forall i | 0 <= i < |done'| - 1
      ensures |Join(NL, done'[i])| + |done'[i + 1][0]| + 1 >= maxLength
    {
      assert done'[i] == done[i];
      if i + 1 < |done| {
        assert done'[i + 1] == done[i + 1];
      }
    }
    assert JoinEach(done') == JoinEach(done) + [Join(NL, current)];
  }

  /** `Run` and `GroupRun` take the same step on the last block. */
  lemma RunUnfold(blocks: seq<string>, maxLength: int)
    requires |blocks| > 0
    ensures var prefix, block := blocks[..|blocks| - 1], blocks[|blocks| - 1];
      && blocks == prefix + [block]
      && GroupRun(blocks, maxLength) == GroupStep(GroupRun(prefix, maxLength), block, maxLength)
      && Run(blocks, maxLength) == Step(Run(prefix, maxLength), block, maxLength)
  {
  }

  /** The first block opens the first group. */
  lemma StartKeepsGrouped(blocks: seq<string>, block: string, maxLength: int)
    requires blocks == [block] && block != ""
    ensures GroupedInvariant(blocks, Grouped([], [block]), Acc([], block), maxLength)
  {
    assert Flatten([]) + [block] == [block];
  }

  /** A block that fits is appended to the current group. */
  lemma ExtendKeepsGrouped(prefix: seq<string>, blocks: seq<string>, g: Grouped, acc: Acc, block: string, maxLength: int)
    requires blocks == prefix + [block]
    requires GroupedInvariant(prefix, g, acc, maxLength) && g.current != []
    requires |Join(NL, g.current)| + |block| + 1 < maxLength
    ensures GroupedInvariant(blocks, Grouped(g.done, g.current + [block]),
                             Acc(acc.chunks, acc.current + NL + block), maxLength)
  {
    JoinSnoc(NL, g.current, block);
    assert (g.current + [block])[0] == g.current[0];
    assert Flatten(g.done) + (g.current + [block]) == blocks;
  }

  /** A block that does not fit closes the current group and opens the next. */
  lemma CloseKeepsGrouped(prefix: seq<string>, blocks: seq<string>, g: Grouped, acc: Acc, block: string, maxLength: int)
    requires blocks == prefix + [block]
    requires block != "" && GroupedInvariant(prefix, g, acc, maxLength) && g.current != []
    requires |Join(NL, g.current)| + |block| + 1 >= maxLength
    ensures GroupedInvariant(blocks, Grouped(g.done + [g.current], [block]),
                             Acc(acc.chunks + [acc.current], block), maxLength)
  {
    FlattenSnoc(g.done, g.current);
    CloseGroup(g.done, g.current, block, maxLength);
    var done' := g.done + [g.current];
    assert done'[|done'| - 1] == g.current;
    assert Flatten(done') + [block] == blocks;
  }

  /** One step of the loop on a non-empty last block keeps the invariant. */
  lemma StepKeepsGrouped(blocks: seq<string>, maxLength: int)
    requires |blocks| > 0 && blocks[|blocks| - 1] != ""
    requires GroupedInvariant(blocks[..|blocks| - 1], GroupRun(blocks[..|blocks| - 1], maxLength),
                              Run(blocks[..|blocks| - 1], maxLength), maxLength)
    ensures GroupedInvariant(blocks, GroupRun(blocks, maxLength), Run(blocks, maxLength), maxLength)
  {
    var prefix, block := blocks[..|blocks| - 1], blocks[|blocks| - 1];
    var g, acc := GroupRun(prefix, maxLength), Run(prefix, maxLength);
    RunUnfold(blocks, maxLength);
    if g.current == [] {
      assert prefix == [] && acc == Acc([], "");
      assert GroupRun(blocks, maxLength) == Grouped([], [block]);
      assert Run(blocks, maxLength) == Acc([], block);
      StartKeepsGrouped(blocks, block, maxLength);
    } else {
      JoinFirstPart(NL, g.current);
      assert acc.current != "";
      if |Join(NL, g.current)| + |block| + 1 < maxLength {
        assert GroupRun(blocks, maxLength) == Grouped(g.done, g.current + [block]);
        assert Run(blocks, maxLength) == Acc(acc.chunks, acc.current + NL + block);
        ExtendKeepsGrouped(prefix, blocks, g, acc, block, maxLength);
      } else {
        assert GroupRun(blocks, maxLength) == Grouped(g.done + [g.current], [block]);
        assert Run(blocks, maxLength) == Acc(acc.chunks + [acc.current], block);
        CloseKeepsGrouped(prefix, blocks, g, acc, block, maxLength);
      }
    }
  }

  lemma {:induction false} RunIsGrouped(blocks: seq<string>, maxLength: int)
    requires NonEmptyBlocks(blocks)
    ensures GroupedInvariant(blocks, GroupRun(blocks, maxLength), Run(blocks, maxLength), maxLength)
  {
    if |blocks| > 0 {
      assert NonEmptyBlocks(blocks[..|blocks| - 1]);
      RunIsGrouped(blocks[..|blocks| - 1], maxLength);
      StepKeepsGrouped(blocks, maxLength);
    }
  }

  /** The chunks of non-empty blocks are a greedy partition of them, each chunk its
      group joined by newlines: no block is lost, duplicated, reordered or split. */
  lemma ChunksArePartition(blocks: seq<string>, maxLength: int)
    requires NonEmptyBlocks(blocks)
    ensures GreedyPartition(blocks, Partition(blocks, maxLength), maxLength)
    ensures Chunks(blocks, maxLength) == JoinEach(Partition(blocks, maxLength))
  {
    RunIsGrouped(blocks, maxLength);
    var g := GroupRun(blocks, maxLength);
    if g.current != [] {
      FlattenSnoc(g.done, g.current);
      CloseGroup(g.done, g.current, "", maxLength);
    } else {
      assert Flatten(g.done) == blocks;
    }
  }

  /** Dropping the first group of a greedy partition leaves a greedy partition of
      the remaining blocks. */
  lemma GreedyPartitionTail(blocks: seq<string>, groups: seq<seq<string>>, maxLength: int)
    requires groups != [] && GreedyPartition(blocks, groups, maxLength)
    ensures |groups[0]| <= |blocks| && blocks[..|groups[0]|] == groups[0]
    ensures GreedyPartition(blocks[|groups[0]|..], groups[1..], maxLength)
  {
    assert blocks == groups[0] + Flatten(groups[1..]);
    assert blocks[|groups[0]|..] == Flatten(groups[1..]);
    forall i | 0 <= i < |groups[1..]| - 1
      ensures |Join(NL, groups[1..][i])| + |groups[1..][i + 1][0]| + 1 >= maxLength
    {
      assert groups[1..][i] == groups[i + 1] && groups[1..][i + 1] == groups[i + 2];
    }
  }

  /** A greedy partition cannot have a first group shorter than another's: the block
      after the shorter group would have fitted, against the greedy boundary. */
  lemma FirstGroupNotShorter(blocks: seq<string>, g1: seq<seq<string>>, g2: seq<seq<string>>, maxLength: int)
    requires g1 != [] && g2 != []
    requires GreedyPartition(blocks, g1, maxLength) && GreedyPartition(blocks, g2, maxLength)
    ensures |g2[0]| <= |g1[0]|
  {
    GreedyPartitionTail(blocks, g1, maxLength);
    GreedyPartitionTail(blocks, g2, maxLength);
    var a, b := g1[0], g2[0];
    if |a| < |b| {
      // The blocks after `a` start with the next group of g1, whose first block is b[|a|].
      assert Flatten(g1[1..]) == blocks[|a|..];
      assert |g1| >= 2;
      assert g1[1..][0] == g1[1];
      assert g1[1][0] == blocks[|a|] == b[|a|];
      assert b[..|a| + 1] == a + [b[|a|]];
      JoinSnoc(NL, a, b[|a|]);
      JoinPrefix(NL, b, |a| + 1);
      assert false;
    }
  }

  /** There is only one greedy partition of a list of blocks. */
  lemma {:induction false} GreedyPartitionUnique(blocks: seq<string>, g1: seq<seq<string>>, g2: seq<seq<string>>, maxLength: int)
    requires GreedyPartition(blocks, g1, maxLength) && GreedyPartition(blocks, g2, maxLength)
    ensures g1 == g2
    decreases |blocks|
  {
    FlattenEmpty(g1);
    FlattenEmpty(g2);
    if g1 != [] && g2 != [] {
      FirstGroupNotShorter(blocks, g1, g2, maxLength);
      FirstGroupNotShorter(blocks, g2, g1, maxLength);
      GreedyPartitionTail(blocks, g1, maxLength);
      GreedyPartitionTail(blocks, g2, maxLength);
      var n := |g1[0]|;
      GreedyPartitionUnique(blocks[n..], g1[1..], g2[1..], maxLength);
      assert g1 == [g1[0]] + g1[1..] && g2 == [g2[0]] + g2[1..];
    }
  }

  /** The chunks of non-empty blocks are determined by the greedy-partition property
      alone: any greedy partition, joined group by group, is what the chunker returns. */
  lemma ChunksAreTheGreedyPartition(blocks: seq<string>, groups: seq<seq<string>>, maxLength: int)
    requires NonEmptyBlocks(blocks) && GreedyPartition(blocks, groups, maxLength)
    ensures Chunks(blocks, maxLength) == JoinEach(groups)
  {
    ChunksArePartition(blocks, maxLength);
    GreedyPartitionUnique(blocks, groups, Partition(blocks, maxLength), maxLength);
  }

  /** A chunk whose length reaches `maxLength` holds exactly one block, and between two
      consecutive chunks the first block of the later one did not fit after the earlier. */
  lemma ChunkBoundaries(blocks: seq<string>, maxLength: int)
    requires NonEmptyBlocks(blocks)
    ensures var chunks, groups := Chunks(blocks, maxLength), Partition(blocks, maxLength);
      && |chunks| == |groups|
      && (forall i :: 0 <= i < |chunks| && |chunks[i]| >= maxLength ==> groups[i] == [chunks[i]])
      && (forall i :: 0 <= i < |chunks| - 1 ==> groups[i + 1] != [] && |chunks[i]| + |groups[i + 1][0]| + 1 >= maxLength)
  {
    ChunksArePartition(blocks, maxLength);
  }

  // ---------------------------------------------------------------------------
  // Concrete inputs

  /** A one-block input comes back as that one chunk, whatever the bound. */
  lemma SingleBlock(block: string, maxLength: int)
    requires block != ""
    ensures Chunks([block], maxLength) == [block]
  {
    assert [block][..0] == [];
    assert Run([block], maxLength) == Acc([], block);
  }

  /** A leading empty block leaves the loop's state as if it had not been there. */
  lemma {:induction false} RunLeadingEmptyBlock(blocks: seq<string>, maxLength: int)
    ensures Run([""] + blocks, maxLength) == Run(blocks, maxLength)
  {
    var all := [""] + blocks;
    if blocks == [] {
      assert all[..0] == [];
    } else {
      var prefix := blocks[..|blocks| - 1];
      assert all[..|all| - 1] == [""] + prefix && all[|all| - 1] == blocks[|blocks| - 1];
      RunLeadingEmptyBlock(prefix, maxLength);
    }
  }

  /** An empty block met while the accumulator is empty vanishes: a leading empty
      block changes no chunk, whatever follows it and whatever the bound. */
  lemma LeadingEmptyBlock(blocks: seq<string>, maxLength: int)
    ensures Chunks([""] + blocks, maxLength) == Chunks(blocks, maxLength)
  {
    RunLeadingEmptyBlock(blocks, maxLength);
  }

  /** A trailing empty block after a block ends the last chunk with a newline when the
      newline still fits, and vanishes otherwise. */
  lemma TrailingEmptyBlock(maxLength: int)
    ensures maxLength > 2 ==> Chunks(["a", ""], maxLength) == ["a\n"]
    ensures maxLength <= 2 ==> Chunks(["a", ""], maxLength) == ["a"]
  {
    var blocks := ["a", ""];
    assert blocks[..1] == ["a"] && blocks[..1][..0] == [];
    assert Run(blocks[..1], maxLength) == Acc([], "a");
    if maxLength > 2 {
      assert "a" + NL + "" == "a\n";
      assert Run(blocks, maxLength) == Acc([], "a\n");
    } else {
      assert Run(blocks, maxLength) == Acc(["a"], "");
    }
  }

  /** An empty block after a block is not neutral either: above a bound of 4 it leaves a
      blank line inside the chunk; at 3 or 4 it fits but the next block does not, so the
      chunk ends in a newline; below 3 it does not fit, closes the chunk and vanishes. */
  lemma EmptyBlockAfterBlock(maxLength: int)
    ensures maxLength > 4 ==> Chunks(["a", "", "b"], maxLength) == ["a\n\nb"]
    ensures 3 <= maxLength <= 4 ==> Chunks(["a", "", "b"], maxLength) == ["a\n", "b"]
    ensures maxLength <= 2 ==> Chunks(["a", "", "b"], maxLength) == ["a", "b"]
  {
    var blocks := ["a", "", "b"];
    assert blocks[..2][..1] == ["a"] && blocks[..2][..1][..0] == [];
    assert Run(blocks[..2][..1], maxLength) == Acc([], "a");
    if maxLength > 2 {
      assert Run(blocks[..2], maxLength) == Acc([], "a\n");
      assert "a\n" + NL + "b" == "a\n\nb";
    } else {
      assert Run(blocks[..2], maxLength) == Acc(["a"], "");
    }
  }

  /** 9 + 19 + 1 = 29 is not below 25, so the two blocks become two chunks. */
  lemma HeadingThenParagraph()
    ensures Chunks(["Heading A", "Paragraph text here"], 25) == ["Heading A", "Paragraph text here"]
  {
    var blocks := ["Heading A", "Paragraph text here"];
    assert blocks[..1] == ["Heading A"] && blocks[..1][..0] == [];
    assert Run(blocks[..1], 25) == Acc([], "Heading A");
  }

  /** With the driver's bound of 750 the same two blocks share one chunk. */
  lemma HeadingAndParagraphShareChunk()
    ensures Chunks(["Heading A", "Paragraph text here"], DefaultMaxLength) == ["Heading A\nParagraph text here"]
  {
    var blocks := ["Heading A", "Paragraph text here"];
    assert blocks[..1] == ["Heading A"] && blocks[..1][..0] == [];
    assert Run(blocks[..1], DefaultMaxLength) == Acc([], "Heading A");
    assert "Heading A" + NL + "Paragraph text here" == "Heading A\nParagraph text here";
    assert Run(blocks, DefaultMaxLength) == Acc([], "Heading A\nParagraph text here");
  }
}
