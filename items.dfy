/**
 * The line-item parser of app.py: the part of the text from the first
 * "Itens do pedido" marker onward, with every marker removed and the
 * surrounding white space stripped, is scanned by the item expression; each
 * match, in order, becomes one ten-cell row with the prices written as
 * "R$ " amounts.
 */
module Items {

  import opened Wrappers
  import opened Text
  import opened Patterns

  /** The section marker. */
  const Marker: string := "Itens do pedido"

  /** The item expression, compiled with `re.DOTALL`. */
  const ItemPattern: string := @"([\w\s\d]+)\nSKU:\s*(\d+)\s*EAN:\s*(\d+)\s*Caixa:\s*([\d\w\s]+)\s*"
    + @"Peso:\s*([\d,]+kg)\s*Qtd. Unidade:\s*(\d+)\s*Qtd. Inteira:\s*([\d\w\s]+)\s*"
    + @"Valor unitário:\s*R\$\s*([\d,.]+)\s*Desconto:\s*R\$\s*([\d,.]+)\s*\(([\d,.%]+)\)\s*"
    + @"Total:\s*R\$\s*([\d,.]+)"

  /** The eleven capture groups of one match of the item expression. */
  datatype ItemMatch = ItemMatch(
    name: string, sku: string, ean: string, box: string, weight: string, unitQty: string,
    wholeQty: string, unitPrice: string, discount: string, discountRate: string, total: string)

  /** Python's `re.finditer` for an expression compiled with `re.DOTALL`:
      the non-overlapping matches in the text, left to right. */
  type ItemEngine = (string, string) -> seq<ItemMatch>

  /** One row of the item table. */
  datatype LineItem = LineItem(
    product: string, sku: string, ean: string, box: string, weight: string, unitQty: string,
    wholeQty: string, unitPrice: string, discount: string, total: string)

  /** The column names of the item table. */
  const Columns: seq<string> := ["Produto", "SKU", "EAN", "Caixa", "Peso", "Qtd. Unidade",
    "Qtd. Inteira", "Valor unitário", "Desconto", "Total"]

  /** A row as the list handed to the table: one cell per column. */
  function Cells(item: LineItem): (r: seq<string>)
    ensures |r| == |Columns| == 10
  {
    [item.product, item.sku, item.ean, item.box, item.weight, item.unitQty, item.wholeQty,
     item.unitPrice, item.discount, item.total]
  }

  /** `f"R$ {amount}"`. */
  function Currency(amount: string): string {
    "R$ " + amount
  }

  /** `f"R$ {amount} ({rate})"`. */
  function DiscountText(amount: string, rate: string): string {
    "R$ " + amount + " (" + rate + ")"
  }

  /** The row built from one match. */
  function ToItem(g: ItemMatch): LineItem {
    LineItem(Strip(g.name), g.sku, g.ean, g.box, g.weight, g.unitQty, g.wholeQty,
      Currency(g.unitPrice), DiscountText(g.discount, g.discountRate), Currency(g.total))
  }

  /** Reads back the amount of a `Currency` cell. */
  function ParseCurrency(s: string): Option<string> {
    if |s| >= 3 && s[..3] == "R$ " then Some(s[3..]) else None
  }

  /** Reads back the amount and the rate of a `DiscountText` cell, cutting at
      the first " (". */
  function ParseDiscount(s: string): Option<(string, string)> {
    if |s| >= 4 && s[..3] == "R$ " && s[|s| - 1] == ')' then
      var body := s[3..|s| - 1];
      match Find(body, " (")
      case None => None
      case Some(i) => Some((body[..i], body[i + 2..]))
    else None
  }

  /** Reads back the groups a row was built from. */
  function ParseItem(item: LineItem): Option<ItemMatch> {
    match (ParseCurrency(item.unitPrice), ParseDiscount(item.discount), ParseCurrency(item.total))
    case (Some(price), Some((amount, rate)), Some(total)) =>
      Some(ItemMatch(item.product, item.sku, item.ean, item.box, item.weight, item.unitQty,
        item.wholeQty, price, amount, rate, total))
    case _ => None
  }

  /** The discount amount is what `([\d,.]+)` captures. */
  predicate IsAmount(s: string) {
    s != [] && forall i :: 0 <= i < |s| ==> InClass(AmountChar, s[i])
  }

  lemma CurrencyRoundTrip(amount: string)
    ensures ParseCurrency(Currency(amount)) == Some(amount)
  {
    assert Currency(amount)[..3] == "R$ ";
    assert Currency(amount)[3..] == amount;
  }

  lemma DiscountRoundTrip(amount: string, rate: string)
    requires IsAmount(amount)
    ensures ParseDiscount(DiscountText(amount, rate)) == Some((amount, rate))
  {
    var body := amount + " (" + rate;
    assert forall i :: 0 <= i < |amount| ==> amount[i] != " ("[0] by {
      forall i | 0 <= i < |amount| ensures amount[i] != ' ' {
        assert InClass(AmountChar, amount[i]);
      }
    }
    FindAfterFree(amount, " (", rate);
    assert DiscountText(amount, rate) == "R$ " + body + ")";
    ParseWrapped(body, |amount|);
    assert body[..|amount|] == amount;
    assert body[|amount| + 2..] == rate;
  }

  /** A cell "R$ " + body + ")" is cut at the first " (" of its body. */
  lemma ParseWrapped(body: string, i: nat)
    requires Find(body, " (") == Some(i)
    ensures ParseDiscount("R$ " + body + ")") == Some((body[..i], body[i + 2..]))
  {
    var s := "R$ " + body + ")";
    assert s[..3] == "R$ " && s[|s| - 1] == ')';
    assert s[3..|s| - 1] == body;
  }

  /** Every row determines the match it came from, up to the white space
      stripped from the product name: the prices are the groups behind a
      literal "R$ ", and the discount carries its rate in parentheses. */
  lemma ItemRoundTrip(g: ItemMatch)
    requires IsAmount(g.discount)
    ensures ParseItem(ToItem(g)) == Some(g.(name := Strip(g.name)))
  {
    CurrencyRoundTrip(g.unitPrice);
    CurrencyRoundTrip(g.total);
    DiscountRoundTrip(g.discount, g.discountRate);
  }

  /** `texto[inicio_itens:].replace("Itens do pedido", "").strip()`, or
      `None` when `texto.find("Itens do pedido")` is -1. */
  function ItemSection(text: string): (r: Option<string>)
    ensures r.None? <==> forall j: nat :: !OccursAt(text, Marker, j)
  {
    match Find(text, Marker)
    case None => None
    case Some(i) => Some(Strip(RemoveAll(text[i..], Marker)))
  }

  /** The section is the text after the first marker, cut at every later
      marker, glued back without the markers and stripped; nothing before the
      first marker takes part. */
  lemma SectionPieces(text: string, i: nat)
    requires Find(text, Marker) == Some(i)
    ensures forall j: nat :: j < i ==> !OccursAt(text, Marker, j)
    ensures ItemSection(text) == Some(Strip(Concat(Split(text[i + |Marker|..], Marker))))
  {
    var s := text[i..];
    assert s[..|Marker|] == Marker;
    assert s[|Marker|..] == text[i + |Marker|..];
    RemoveAllIsConcatOfSplit(text[i + |Marker|..], Marker);
  }

  /** With a single marker in the text, the section is the stripped text
      after it. */
  lemma SingleMarkerSection(text: string, i: nat)
    requires Find(text, Marker) == Some(i)
    requires forall j: nat :: j != i ==> !OccursAt(text, Marker, j)
    ensures ItemSection(text) == Some(Strip(text[i + |Marker|..]))
  {
    OnlyOccurrence(text, Marker, i);
    SectionPieces(text, i);
  }

  /** `extrair_itens_pedido`: no marker gives no rows; otherwise one row per
      match of the item expression in the section, in match order, row `k`
      built from match `k`. */
  method ExtractItems(text: string, engine: ItemEngine) returns (items: seq<LineItem>)
    ensures (forall j: nat :: !OccursAt(text, Marker, j)) ==> items == []
    ensures ItemSection(text).Some? ==>
      var matches := engine(ItemPattern, ItemSection(text).value);
      |items| == |matches| && forall k :: 0 <= k < |matches| ==> items[k] == ToItem(matches[k])
  {
    var start := Find(text, Marker);
    if start.None? {
      return [];
    }
    var section := Strip(RemoveAll(text[start.value..], Marker));
    assert ItemSection(text) == Some(section);
    items := BuildRows(engine(ItemPattern, section));
  }

  /** The `for` loop over `finditer`: one row per match, in match order. */
  method BuildRows(matches: seq<ItemMatch>) returns (items: seq<LineItem>)
    ensures |items| == |matches|
    ensures forall k :: 0 <= k < |matches| ==> items[k] == ToItem(matches[k])
  {
    items := [];
    for k := 0 to |matches|
      invariant |items| == k
      invariant forall j :: 0 <= j < k ==> items[j] == ToItem(matches[j])
    {
      items := items + [ToItem(matches[k])];
    }
  }

  /** In every row the product name carries no white space at either end,
      the prices start with "R$ " and the discount ends with its rate in
      parentheses. */
  lemma RowFormat(g: ItemMatch)
    ensures var item := ToItem(g);
      (item.product == [] || (!IsSpace(item.product[0]) && !IsSpace(item.product[|item.product| - 1])))
      && item.unitPrice[..3] == item.total[..3] == item.discount[..3] == "R$ "
      && item.discount[|item.discount| - |g.discountRate| - 3..] == " (" + g.discountRate + ")"
  {
    var d := DiscountText(g.discount, g.discountRate);
    assert d == ("R$ " + g.discount) + (" (" + g.discountRate + ")");
  }
}
