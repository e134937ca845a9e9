# pdf-para-excel: the text-to-records layer, in Dafny

This project models how the order converter turns the flat text of an order
document into records. Three parts are modelled:

- **Header** (`extrair_dados_pedido`, module `Header`). Nine labelled rules
  are searched in the order of the rule table. Each one appends a
  `(label, value)` row. The value is the stripped first capture of the
  rule's leftmost match, or `""` when the rule does not match. Two scalars,
  the order number (`Pré pedido`) and the sold-to number (`Sold`), start as
  `"Desconhecido"`. Each takes the row value of its own rule when that rule
  matches.
- **Line items** (`extrair_itens_pedido`, module `Items`). The text is taken
  from the first `"Itens do pedido"` marker onward. Every marker is removed
  from it and the result is stripped. Each match of the item expression,
  left to right, becomes a ten-cell row. The prices are written as
  `"R$ " + amount`, and the discount as `"R$ " + amount + " (" + rate + ")"`.
  Without a marker there are no rows.
- **Output file name** (module `Export`). The name is
  `"Pre-pedido-" + pre + "_Sold-" + sold + ".xlsx"`. `Export.Process` joins
  the page texts with `"\n"`, runs both parsers and derives the name.

Six of the header rules have the shape `label\s+(C+)` for a character
class `C`. Module `Patterns` matches these itself, as Python's `re.search`
does:

- the leftmost position wins;
- `\s+` is greedy and gives characters back one at a time until `C+` can
  match;
- `C+` then takes the whole run.

The other three header expressions (`Vendedor`, `C. Pagamento`,
`Valor do pedido`) and the item expression are matched by an engine passed
in as a function value. They rely on a class match up to a newline, on a
lookahead, and on a literal currency marker. The engine stands for Python's
`re`. Module `Text` holds `str.strip`, `str.find`, `str.replace(m, "")`,
`str.split` and `str.join`, with Python's `str.isspace` set of white-space
characters.

The loops of the source are methods with loop invariants:

- `Header.ExtractFields` is the header loop. `Header.ExtractHeader` runs it
  on the nine-rule table.
- `Items.BuildRows` is the item loop.

Each method is proved against a specification function (`Header.Rows`,
`Header.LastValue`, `Header.Scalar`, `Items.ToItem`, `Items.ItemSection`).
Lemmas state what those functions promise.

Two facts about the code shape what the model does:

- Pages are joined with `"\n"` between them, so no newline follows the last
  page (app.py:66).
- The `C. Pagamento` group `([\w\s\d]+)` is greedy (app.py:16). It is kept
  verbatim in the rule table.

## Model

| member | source | states |
|---|---|---|
| Header.Rules | app.py:8-18 | the nine rules in insertion order, each with its label; rules 1, 2, 4-7 as `label\s+(C+)` with classes `\d`, `\d`, `[\d/:\s]`, `[\d/:\s]`, `[\d/]`, `\d`; rules 3, 8, 9 with their expressions verbatim |
| Header.RuleSearch | app.py:25-27 | `re.search(regex, texto)` and `group(1)`: the `Patterns` matcher for a `label\s+(C+)` rule, the engine for the others |
| Header.FieldValue | app.py:26-28 | the row value: the stripped capture on a match, `""` otherwise |
| Header.Rows | app.py:24-34 | the header table a rule table gives: one `(label, FieldValue)` row per rule, in table order |
| Header.LastValue | app.py:21-32 | a scalar after a prefix of the rule table: the row value of the last matching rule with its label, starting from `"Desconhecido"` |
| Header.Scalar | app.py:21-32 | the final scalar of one rule: its stripped capture on a match, `"Desconhecido"` otherwise |
| Header.ExtractHeader | app.py:7-36 | exactly nine rows, labelled in rule-table order; a rule without a match gives `""`, a matching rule the stripped first capture; each scalar is `"Desconhecido"` unless its own rule matches, and then equals that rule's row value |
| Header.ExtractFields | app.py:20-34 | for any rule table: one row per rule in table order; `""` on a miss, the stripped capture on a match; each scalar is the value of the last matching rule with its label, or the sentinel |
| Header.LastValueStep | app.py:29-32 | one more rule changes a scalar only when that rule carries the scalar's label and matches, and then sets it to the row value |
| Header.LastValueUnique | app.py:21-32 | when exactly one rule carries a label, the scalar for it depends on that rule alone: its stripped capture, or the sentinel |
| Header.LastValueStays | app.py:21-22 | a scalar whose label no rule carries stays `"Desconhecido"` |
| Header.ScalarLabels | app.py:8-18 | in the rule table only the first rule is labelled `Pré pedido` and only the second `Sold` |
| Header.ScalarIsValue | app.py:26-32 | a scalar equals its rule's row value when the rule matches and the sentinel when it does not, so an unmatched `Pré pedido` has row value `""` but scalar `"Desconhecido"` |
| Header.RunRuleValue | app.py:25-27 | a matching `label\s+(C+)` rule yields a value of class characters only; for `\d+` and `[\d/]+` it is the whole capture and not empty |
| Header.ScalarShape | app.py:9-10 | the order-number and sold-to scalars are the sentinel or a non-empty string of digits |
| Patterns.RunLengthSpec | app.py:9 | a greedy class run covers only class characters and stops at the first character outside the class, or at the end |
| Patterns.AllInRun | app.py:9 | the characters after a position are all in the class exactly up to the run length |
| Patterns.FitsIff | app.py:9 | `\s+(C+)` fits after the label exactly when the gap lies within the white-space run and the capture within the class run after it |
| Patterns.TryGapSpec | app.py:25 | the backtracking of `\s+` settles on the widest gap after which the class run is non-empty and captures that whole run; it fails when every such run is empty |
| Patterns.MatchAtSpec | app.py:25 | at a position the match has the widest possible gap and the longest capture, and there is none when the expression does not fit there |
| Patterns.SearchFromSpec | app.py:25 | the scan from a position reports the first later position where the expression fits, or none when it fits nowhere |
| Patterns.Search | app.py:25 | `re.search(label\s+(C+), text)`: the match found by scanning positions from 0 upward with `SearchFrom` |
| Patterns.FirstCapture | app.py:25-27 | `match.group(1)` of that search: the `len` characters after the label and its `gap`, or `None` without a match |
| Patterns.SearchIsLeftmost | app.py:25 | `re.search` reports the leftmost match, with Python's order of gap and length; there is no match exactly when nothing fits |
| Patterns.FirstCaptureInClass | app.py:25-27 | `group(1)` is a non-empty run of class characters; there is none exactly when the rule cannot match |
| Patterns.SearchAtFirstLabel | app.py:25 | if the expression fits at the first occurrence of the label, the match is there |
| Patterns.CaptureAt | app.py:25-27 | at the first occurrence of the label, a gap and run that both stop at a character outside their class make up the capture |
| Patterns.StrippedCapture | app.py:27 | the stripped capture keeps only class characters, and equals the whole non-empty capture for classes without white space |
| Patterns.ClassOfStrip | app.py:27 | stripping keeps a string inside its character class |
| Text.TrimStart | app.py:27 | `lstrip` removes exactly the leading white space and leaves a suffix that starts with a non-space |
| Text.TrimEnd | app.py:27 | `rstrip` removes exactly the trailing white space and leaves a prefix that ends with a non-space |
| Text.Strip | app.py:27 | the result is no longer than the input and neither begins nor ends with white space |
| Text.StripInfix | app.py:27 | `strip` removes white space at the two ends only: the result is the infix after the leading white space; an empty result means the input was all white space |
| Text.StripNoSpace | app.py:27 | a string with no white space is unchanged by `strip` |
| Text.FindFrom | app.py:39 | `find` from a position reports the first occurrence at or after it, and none means there is no occurrence from there on |
| Text.Find | app.py:39 | `find` reports the first occurrence; `-1` (here `None`) exactly when the marker does not occur anywhere |
| Text.IsSpace | app.py:27 | the white-space set of `\s` and of a bare `strip()`: Python's `str.isspace`, i.e. U+0009-000D, U+001C-0020, U+0085, U+00A0, U+1680, U+2000-200A, U+2028, U+2029, U+202F, U+205F, U+3000 |
| Text.RemoveAll | app.py:43 | `s.replace(m, "")`: scans left to right, deletes each non-overlapping occurrence of `m` and copies every other character; the result is never longer than `s` |
| Text.Join | app.py:66 | `sep.join(parts)`: the parts in order with one separator between neighbours; `""` for no parts |
| Text.JoinPlacesParts | app.py:66 | in the joined text, page `k` sits unchanged at offset `PartStart(pages, "\n", k)`, the total length of the earlier pages plus one newline each |
| Text.JoinSeparates | app.py:66 | in the joined text, a newline follows every page but the last |
| Text.RemoveAllPrefix | app.py:43 | before the first occurrence, `replace(m, "")` copies the text unchanged |
| Text.RemoveAllIsConcatOfSplit | app.py:43 | `replace(m, "")` equals `"".join(split(m))`: it deletes exactly the occurrences that `split` cuts at |
| Text.SplitPiecesFree | app.py:43 | no piece left by `split(m)` contains `m` (the glued result may still hold one, formed across a removed marker) |
| Text.JoinSplit | app.py:43 | joining the pieces of the `split` behind `replace` with the separator gives back the original text |
| Text.OnlyOccurrence | app.py:43 | after the only occurrence of a marker, removing markers changes nothing |
| Items.ItemSection | app.py:39-43 | there is no section exactly when the marker does not occur in the text |
| Items.SectionPieces | app.py:39-43 | the section ignores everything before the first marker: it is the text after that marker, cut at every later marker, glued back without them, then stripped |
| Items.SingleMarkerSection | app.py:43 | with a single marker the section is the stripped text after it |
| Items.ExtractItems | app.py:38-62 | no marker gives `[]`; otherwise one row per match of the item expression over the section, in match order, row `k` built from match `k` |
| Items.BuildRows | app.py:54-60 | the item loop gives as many rows as matches, row `k` built from match `k` |
| Items.ToItem | app.py:55-59 | the row of one match: stripped group 1, groups 2-7 as they are, `"R$ " + g8`, `"R$ " + g9 + " (" + g10 + ")"`, `"R$ " + g11` |
| Items.Cells | app.py:56-60 | every item row has exactly ten cells, one per item column |
| Items.RowFormat | app.py:55-59 | the product name has no white space at either end; unit price, discount and total start with `"R$ "`; the discount ends with `" (" + rate + ")"` |
| Items.CurrencyRoundTrip | app.py:58-59 | a price cell `"R$ " + amount` gives back its amount |
| Items.DiscountRoundTrip | app.py:58 | a discount cell gives back its amount and rate when the amount is a `[\d,.]+` capture |
| Items.ItemRoundTrip | app.py:54-60 | a row gives back the eleven groups of its match, except the white space stripped from the name |
| Export.FieldCells | app.py:71 | every header row has exactly two cells, one per header column |
| Export.FileName | app.py:82 | `f"Pre-pedido-{pre}_Sold-{sold}.xlsx"` |
| Export.FileNameRoundTrip | app.py:82 | the file name gives back the order number and the sold-to number it was built from, when the order number has no underscore |
| Export.UnknownFileName | app.py:82 | with both scalars at the sentinel the name is `"Pre-pedido-Desconhecido_Sold-Desconhecido.xlsx"` |
| Export.PreScalarHasNoUnderscore | app.py:29-30 | the order-number scalar never holds an underscore, so the file name can always be read back |
| Export.Process | app.py:64-83 | over the pages joined with `"\n"`: the header rows and item rows of that text; the file name built from the two scalars, which reads back into them; the sentinel name when neither number is found |

## Left out

- PDF reading with `fitz` (app.py:65-66) is foreign I/O. The model takes the page texts as a sequence of strings and joins them with `"\n"`.
- The semantics of Python's `re` for `Vendedor\s+([A-Za-z\s]+)\n`, for the `C. Pagamento` expression with its lookahead, for `Valor do pedido\s+R\$\s([\d,.]+)` and for the `re.DOTALL` item expression are not modelled. They come in as the function parameters `Header.Engine` and `Items.ItemEngine`, which return the first capture and the match list. The expressions are kept verbatim.
- Patterns.InClass reads `\d` as the ASCII digits only. Python also accepts the other Unicode decimal digits there, so the model's `\d+` is narrower on such text.
- Header.ScalarShape: "digits" means ASCII digits, for the reason above.
- Items.ItemRoundTrip requires the discount group to be made of `[\d,.]` characters, which is what group 9 of the item expression captures. The engine is abstract, so the model cannot derive this itself.
- Export.FileNameRoundTrip requires an underscore-free order number. `Export.PreScalarHasNoUnderscore` shows that the order-number scalar always meets it.
- The pandas tables and the Excel writer (app.py:71-80) are foreign code: the sheet, the cell offsets and the byte buffer. Only the columns of each row are kept (`Items.Cells`, `Export.FieldCells`).
- The Streamlit page (app.py:85-94) is presentation only.
- `Text.RemoveAll` with an empty pattern returns the text unchanged. Python's `replace("", "")` gives the same result, but only the non-empty marker is ever used.
