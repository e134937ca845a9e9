/**
 * `processar_pdf` without the document reader and the spreadsheet writer:
 * the page texts are joined into one flat text, both parsers run on it, and
 * the output file name is derived from the two header scalars.
 */
module Export {

  import opened Wrappers
  import opened Text
  import opened Header
  import opened Items

  const NamePrefix: string := "Pre-pedido-"
  const SoldTag: string := "_Sold-"
  const NameSuffix: string := ".xlsx"

  /** The column names of the header table. */
  const HeaderColumns: seq<string> := ["Campo", "Valor"]

  /** A header row as the list handed to the table: one cell per column. */
  function FieldCells(f: Field): (r: seq<string>)
    ensures |r| == |HeaderColumns| == 2
  {
    [f.name, f.value]
  }

  /** `f"Pre-pedido-{pre_pedido}_Sold-{sold}.xlsx"`. */
  function FileName(pre: string, sold: string): string {
    NamePrefix + pre + SoldTag + sold + NameSuffix
  }

  /** Reads the two numbers back out of a file name, cutting at the first
      "_Sold-". */
  function ParseFileName(name: string): Option<(string, string)> {
    if |name| >= |NamePrefix| + |NameSuffix| && name[..|NamePrefix|] == NamePrefix
      && name[|name| - |NameSuffix|..] == NameSuffix
    then
      var middle := name[|NamePrefix|..|name| - |NameSuffix|];
      match Find(middle, SoldTag)
      case None => None
      case Some(i) => Some((middle[..i], middle[i + |SoldTag|..]))
    else None
  }

  /** A file name gives back the order number and the sold-to number it was
      made from, whenever the order number holds no underscore. */
  lemma FileNameRoundTrip(pre: string, sold: string)
    requires forall i :: 0 <= i < |pre| ==> pre[i] != '_'
    ensures ParseFileName(FileName(pre, sold)) == Some((pre, sold))
  {
    var name := FileName(pre, sold);
    var middle := pre + SoldTag + sold;
    assert name == NamePrefix + middle + NameSuffix;
    assert name[..|NamePrefix|] == NamePrefix;
    assert name[|name| - |NameSuffix|..] == NameSuffix;
    assert name[|NamePrefix|..|name| - |NameSuffix|] == middle;
    FindAfterFree(pre, SoldTag, sold);
    assert middle[..|pre|] == pre;
    assert middle[|pre| + |SoldTag|..] == sold;
  }

  /** The file name when neither number is found. */
  lemma UnknownFileName()
    ensures FileName(Sentinel, Sentinel) == "Pre-pedido-Desconhecido_Sold-Desconhecido.xlsx"
  {
    var head := NamePrefix + Sentinel;
    var tail := SoldTag + Sentinel + NameSuffix;
    assert FileName(Sentinel, Sentinel) == head + tail;
    LiteralHalves();
  }

  /** The two halves of the sentinel file name, spelled out. */
  lemma LiteralHalves()
    ensures (NamePrefix + Sentinel) + (SoldTag + Sentinel + NameSuffix)
      == "Pre-pedido-Desconhecido_Sold-Desconhecido.xlsx"
  {
    LiteralHead();
    LiteralTail();
  }

  lemma LiteralHead()
    ensures NamePrefix + Sentinel == "Pre-pedido-Desconhecido"
  {
  }

  lemma LiteralTail()
    ensures SoldTag + Sentinel + NameSuffix == "_Sold-Desconhecido.xlsx"
  {
  }

  /** The order-number scalar is the sentinel or a string of digits, so it
      holds no underscore. */
  lemma PreScalarHasNoUnderscore(text: string, engine: Engine)
    ensures var pre := Scalar(Rules[0], text, engine);
      forall i :: 0 <= i < |pre| ==> pre[i] != '_'
  {
    ScalarShape(0, text, engine);
  }

  /** `processar_pdf` on the text of the pages: the header rows and the item
      rows of the joined text, and a file name built from the two scalars
      that can be read back into them; with neither number found it is
      "Pre-pedido-Desconhecido_Sold-Desconhecido.xlsx". */
  method Process(pages: seq<string>, engine: Engine, itemEngine: ItemEngine)
    returns (fields: seq<Field>, items: seq<LineItem>, name: string)
    ensures fields == Rows(Rules, Join(pages, "\n"), engine)
    ensures ItemSection(Join(pages, "\n")).None? ==> items == []
    ensures ItemSection(Join(pages, "\n")).Some? ==>
      var matches := itemEngine(ItemPattern, ItemSection(Join(pages, "\n")).value);
      |items| == |matches| && forall k :: 0 <= k < |matches| ==> items[k] == ToItem(matches[k])
    ensures var text := Join(pages, "\n");
      name == FileName(Scalar(Rules[0], text, engine), Scalar(Rules[1], text, engine))
    ensures var text := Join(pages, "\n");
      ParseFileName(name) == Some((Scalar(Rules[0], text, engine), Scalar(Rules[1], text, engine)))
    ensures var text := Join(pages, "\n");
      RuleSearch(Rules[0], text, engine).None? && RuleSearch(Rules[1], text, engine).None? ==>
      name == "Pre-pedido-Desconhecido_Sold-Desconhecido.xlsx"
  {
    var text := Join(pages, "\n");
    var pre, sold;
    fields, pre, sold := ExtractHeader(text, engine);
    items := ExtractItems(text, itemEngine);
    name := FileName(pre, sold);
    PreScalarHasNoUnderscore(text, engine);
    FileNameRoundTrip(pre, sold);
    UnknownFileName();
  }
}
