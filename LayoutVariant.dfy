/** The layout-variant generator: for bot counts 10, 20, ..., 100 it rewrites
    the `BotCount` and `NameLayout` children of one parsed layout in place
    and writes the tree to `<name>r<count><extension>` beside the original. */
module LayoutVariant {
  import opened Naming

  /** A direct child of the layout's root element. */
  datatype Element = Element(tag: string, text: string)

  /** A file written by the generator: where it goes and the root's children
      at the moment of writing. */
  datatype Written = Written(directory: string, fileName: string, children: seq<Element>)

  const BotCountTag: string := "BotCount"
  const NameLayoutTag: string := "NameLayout"

  /** `f"{name}r{bot_count}{extension}"` */
  function VariantFileName(name: string, count: nat, extension: string): string {
    VariantName(name, count) + extension
  }

  /** The children after `for e in root.findall(tag): e.text = text`. */
  function SetText(children: seq<Element>, tag: string, text: string): (r: seq<Element>)
    ensures |r| == |children|
    ensures forall i :: 0 <= i < |r| ==> r[i].tag == children[i].tag
    ensures forall i :: 0 <= i < |r| && children[i].tag == tag ==> r[i].text == text
    ensures forall i :: 0 <= i < |r| && children[i].tag != tag ==> r[i] == children[i]
  {
    seq(|children|, i requires 0 <= i < |children| =>
      if children[i].tag == tag then children[i].(text := text) else children[i])
  }

  /** The children after the update for one bot count: every `BotCount`
      child holds the count, every `NameLayout` child the variant name, and
      every other child is as it was. */
  function Variant(children: seq<Element>, name: string, count: nat): (r: seq<Element>)
    ensures |r| == |children|
    ensures forall i :: 0 <= i < |r| ==> r[i].tag == children[i].tag
    ensures forall i :: 0 <= i < |r| && children[i].tag == BotCountTag ==>
      r[i].text == NatToString(count)
    ensures forall i :: 0 <= i < |r| && children[i].tag == NameLayoutTag ==>
      r[i].text == VariantName(name, count)
    ensures forall i :: 0 <= i < |r| && children[i].tag != BotCountTag && children[i].tag != NameLayoutTag ==>
      r[i] == children[i]
  {
    SetText(SetText(children, BotCountTag, NatToString(count)), NameLayoutTag, VariantName(name, count))
  }

  /** Each update overwrites everything the previous one wrote, so the tree
      written for a count does not depend on the counts before it. */
  lemma VariantOverwrites(children: seq<Element>, name: string, a: nat, b: nat)
    ensures Variant(Variant(children, name, a), name, b) == Variant(children, name, b)
  {
  }

  /** The ten variant files of one layout have ten different names. */
  lemma VariantFileNamesDistinct(name: string, extension: string, a: nat, b: nat)
    requires a != b
    ensures VariantFileName(name, a, extension) != VariantFileName(name, b, extension)
  {
    var fa, fb := VariantFileName(name, a, extension), VariantFileName(name, b, extension);
    if fa == fb {
      assert VariantName(name, a) == fa[..|fa| - |extension|];
      assert VariantName(name, b) == fb[..|fb| - |extension|];
      VariantNameInjective(name, a, b);
    }
  }

  /** `for e in root.findall(tag): e.text = text`, in place on the root's children. */
  method SetChildText(root: array<Element>, tag: string, text: string)
    modifies root
    ensures root[..] == SetText(old(root[..]), tag, text)
  {
    var i := 0;
    while i < root.Length
      invariant 0 <= i <= root.Length
      invariant forall k :: 0 <= k < i ==> root[k] == SetText(old(root[..]), tag, text)[k]
      invariant forall k :: i <= k < root.Length ==> root[k] == old(root[k])
    {
      if root[i].tag == tag {
        root[i] := root[i].(text := text);
      }
      i := i + 1;
    }
  }

  /** `create_variant_files` for one picked layout: the sweep over bot counts
      10, 20, ..., 100, updating the tree in place and writing it each time. */
  method CreateVariantFiles(directory: string, name: string, extension: string, root: array<Element>)
    returns (written: seq<Written>)
    modifies root
    ensures |written| == 10
    ensures forall i :: 0 <= i < 10 ==>
      written[i] == Written(directory, VariantFileName(name, 10 * i + 10, extension),
                            Variant(old(root[..]), name, 10 * i + 10))
    ensures root[..] == Variant(old(root[..]), name, 100)
  {
    ghost var original := root[..];
    written := [];
    var botCount := 10;
    while botCount < 110
      invariant 10 <= botCount <= 110 && botCount % 10 == 0
      invariant |written| == botCount / 10 - 1
      invariant botCount == 10 ==> root[..] == original
      invariant botCount > 10 ==> root[..] == Variant(original, name, botCount - 10)
      invariant forall i :: 0 <= i < |written| ==>
        written[i] == Written(directory, VariantFileName(name, 10 * i + 10, extension),
                              Variant(original, name, 10 * i + 10))
    {
      SetChildText(root, BotCountTag, NatToString(botCount));
      SetChildText(root, NameLayoutTag, VariantName(name, botCount));
      if botCount > 10 {
        VariantOverwrites(original, name, botCount - 10, botCount);
      }
      written := written + [Written(directory, VariantFileName(name, botCount, extension), root[..])];
      botCount := botCount + 10;
    }
  }
}
