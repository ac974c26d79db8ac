/** Separating byte-identical `.zh.md` code blocks from those of their unsuffixed siblings. */
module PairedBlocks {
  import opened Options

  /** A code block: the document that owns it, its fingerprint, and which block it is. */
  datatype Block = Block(doc: string, fingerprint: string, id: nat)

  const SUFFIX: string := ".zh.md"

  /** `unsuffixedSibling`. */
  function Sibling(doc: string): (r: Option<string>)
    ensures r.Some? ==> |r.value| < |doc|
  {
    if |doc| >= |SUFFIX| && doc[|doc| - |SUFFIX|..] == SUFFIX then Some(doc[..|doc| - |SUFFIX|] + ".md") else None
  }

  /** `x.zh.md` has the sibling `x.md`, and no other document has one. */
  lemma SiblingMeans(doc: string, base: string)
    ensures Sibling(base + ".zh.md") == Some(base + ".md")
    ensures Sibling(doc).Some? <==> exists b :: doc == b + ".zh.md"
  {
    assert (base + ".zh.md")[..|base|] == base && (base + ".zh.md")[|base|..] == ".zh.md";
    if Sibling(doc).Some? {
      assert doc == doc[..|doc| - 6] + ".zh.md";
    }
    if b :| doc == b + ".zh.md" {
      assert doc[|b|..] == ".zh.md";
    }
  }

  /** The blocks of one document, in order. */
  function Of(blocks: seq<Block>, doc: string): seq<Block> {
    if blocks == [] then [] else (if blocks[0].doc == doc then [blocks[0]] else []) + Of(blocks[1..], doc)
  }

  ghost predicate SamePrints(a: seq<Block>, b: seq<Block>) {
    |a| == |b| && forall i :: 0 <= i < |a| ==> a[i].fingerprint == b[i].fingerprint
  }

  /** The document has blocks, and they match its sibling's blocks one for one. */
  ghost predicate IsDerivative(blocks: seq<Block>, doc: string) {
    Of(blocks, doc) != [] && Sibling(doc).Some? && SamePrints(Of(blocks, doc), Of(blocks, Sibling(doc).value))
  }

  /** The blocks of the chosen documents, in order. */
  function Select(blocks: seq<Block>, docs: set<string>, chosen: bool): seq<Block> {
    if blocks == [] then [] else (if (blocks[0].doc in docs) == chosen then [blocks[0]] else []) + Select(blocks[1..], docs, chosen)
  }

  lemma {:induction false} OfSnoc(blocks: seq<Block>, b: Block, doc: string)
    ensures Of(blocks + [b], doc) == Of(blocks, doc) + if b.doc == doc then [b] else []
  {
    if blocks != [] {
      OfSnoc(blocks[1..], b, doc);
      assert (blocks + [b])[1..] == blocks[1..] + [b];
    }
  }

  lemma {:induction false} SelectSnoc(blocks: seq<Block>, b: Block, docs: set<string>, chosen: bool)
    ensures Select(blocks + [b], docs, chosen) == Select(blocks, docs, chosen) + if (b.doc in docs) == chosen then [b] else []
  {
    if blocks != [] {
      SelectSnoc(blocks[1..], b, docs, chosen);
      assert (blocks + [b])[1..] == blocks[1..] + [b];
    }
  }

  lemma {:induction false} OfHolds(blocks: seq<Block>, doc: string)
    ensures forall b :: b in Of(blocks, doc) <==> b in blocks && b.doc == doc
  {
    if blocks != [] {
      OfHolds(blocks[1..], doc);
      assert blocks == [blocks[0]] + blocks[1..];
    }
  }

  lemma {:induction false} SelectHolds(blocks: seq<Block>, docs: set<string>, chosen: bool)
    ensures forall b :: b in Select(blocks, docs, chosen) <==> b in blocks && (b.doc in docs) == chosen
  {
    if blocks != [] {
      SelectHolds(blocks[1..], docs, chosen);
      assert blocks == [blocks[0]] + blocks[1..];
    }
  }

  // ---------------------------------------------------------------- the loops

  /** The first loop: blocks grouped by document. */
  method GroupByDoc(blocks: seq<Block>) returns (byDoc: map<string, seq<Block>>)
    ensures forall doc :: doc in byDoc <==> Of(blocks, doc) != []
    ensures forall doc :: doc in byDoc ==> byDoc[doc] == Of(blocks, doc)
  {
    byDoc := map[];
    for i := 0 to |blocks|
      invariant forall doc :: doc in byDoc <==> Of(blocks[..i], doc) != []
      invariant forall doc :: doc in byDoc ==> byDoc[doc] == Of(blocks[..i], doc)
    {
      var b := blocks[i];
      assert blocks[..i + 1] == blocks[..i] + [b];
      forall doc
        ensures Of(blocks[..i + 1], doc) == Of(blocks[..i], doc) + if b.doc == doc then [b] else []
      {
        OfSnoc(blocks[..i], b, doc);
      }
      byDoc := byDoc[b.doc := if b.doc in byDoc then byDoc[b.doc] + [b] else [b]];
    }
    assert blocks[..|blocks|] == blocks;
  }

  /** The second loop: the documents whose blocks all match. */
  method DerivativeDocs(blocks: seq<Block>) returns (found: set<string>)
    ensures forall doc :: doc in found <==> IsDerivative(blocks, doc)
  {
    var byDoc := GroupByDoc(blocks);
    var rest := byDoc.Keys;
    found := {};
    while rest != {}
      invariant rest <= byDoc.Keys && found <= byDoc.Keys - rest
      invariant forall doc :: doc in byDoc.Keys - rest ==> (doc in found <==> IsDerivative(blocks, doc))
      decreases rest
    {
      var doc :| doc in rest;
      var sibling := Sibling(doc);
      if sibling.Some? && sibling.value in byDoc {
        var candidates, originals := byDoc[doc], byDoc[sibling.value];
        if |originals| == |candidates| && forall i :: 0 <= i < |candidates| ==> candidates[i].fingerprint == originals[i].fingerprint {
          found := found + {doc};
        }
      }
      rest := rest - {doc};
    }
  }

  /** `partitionPairedMarkdownDerivatives`, with the set of derivative documents it found. */
  method Partition(blocks: seq<Block>) returns (primary: seq<Block>, derivatives: seq<Block>, found: set<string>)
    ensures forall doc :: doc in found <==> IsDerivative(blocks, doc)
    ensures primary == Select(blocks, found, false) && derivatives == Select(blocks, found, true)
  {
    found := DerivativeDocs(blocks);
    primary, derivatives := [], [];
    for i := 0 to |blocks|
      invariant primary == Select(blocks[..i], found, false) && derivatives == Select(blocks[..i], found, true)
    {
      var b := blocks[i];
      assert blocks[..i + 1] == blocks[..i] + [b];
      SelectSnoc(blocks[..i], b, found, false);
      SelectSnoc(blocks[..i], b, found, true);
      if b.doc in found {
        derivatives := derivatives + [b];
      } else {
        primary := primary + [b];
      }
    }
    assert blocks[..|blocks|] == blocks;
  }

  // ------------------------------------------------------------ main theorems

  /** Every block goes to exactly one side. */
  lemma {:induction false} EveryBlockOnce(blocks: seq<Block>, docs: set<string>)
    ensures multiset(Select(blocks, docs, false)) + multiset(Select(blocks, docs, true)) == multiset(blocks)
  {
    if blocks != [] {
      EveryBlockOnce(blocks[1..], docs);
      assert blocks == [blocks[0]] + blocks[1..];
    }
  }

  /** Each side lists its blocks in their original order. */
  lemma {:induction false} OrderIsKept(blocks: seq<Block>, docs: set<string>, chosen: bool) returns (at: seq<nat>)
    ensures |at| == |Select(blocks, docs, chosen)|
    ensures forall i :: 0 <= i < |at| ==> at[i] < |blocks| && blocks[at[i]] == Select(blocks, docs, chosen)[i]
    ensures forall i, j :: 0 <= i < j < |at| ==> at[i] < at[j]
    decreases |blocks|
  {
    if blocks == [] {
      at := [];
    } else {
      var front, last := blocks[..|blocks| - 1], blocks[|blocks| - 1];
      assert blocks == front + [last];
      SelectSnoc(front, last, docs, chosen);
      at := OrderIsKept(front, docs, chosen);
      if (last.doc in docs) == chosen {
        at := at + [|blocks| - 1];
      }
    }
  }

  /** The document `k` siblings down. */
  function SiblingAfter(doc: string, k: nat): Option<string>
    decreases k
  {
    if k == 0 then Some(doc) else if Sibling(doc).None? then None else SiblingAfter(Sibling(doc).value, k - 1)
  }

  /**
   * Every derivative block has a primary block with its fingerprint, at its own
   * position, in some document down the chain of siblings.
   */
  lemma {:induction false} DerivativeHasPrimary(blocks: seq<Block>, docs: set<string>, doc: string, i: nat) returns (root: string, k: nat)
    requires (forall d :: d in docs <==> IsDerivative(blocks, d)) && doc in docs && i < |Of(blocks, doc)|
    ensures k > 0 && SiblingAfter(doc, k) == Some(root) && root !in docs
    ensures i < |Of(blocks, root)| && Of(blocks, root)[i].fingerprint == Of(blocks, doc)[i].fingerprint
    ensures Of(blocks, root)[i] in Select(blocks, docs, false)
    decreases |doc|
  {
    var next := Sibling(doc).value;
    if next in docs {
      var m: nat;
      root, m := DerivativeHasPrimary(blocks, docs, next, i);
      k := m + 1;
    } else {
      root, k := next, 1;
      assert SiblingAfter(doc, 1) == Some(next) by {
        assert SiblingAfter(next, 0) == Some(next);
      }
      OfHolds(blocks, root);
      SelectHolds(blocks, docs, false);
      assert Of(blocks, root)[i] in Of(blocks, root);
    }
  }
}
