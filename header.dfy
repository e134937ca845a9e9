/**
 * The header parser of app.py: nine labelled rules, taken in the order of the
 * rule table, each searched for in the flat document text; one (label, value)
 * row per rule, and the order number and the sold-to number kept aside for
 * the output file name.
 */
module Header {

  import opened Wrappers
  import opened Text
  import opened Patterns

  /** How a rule finds its value: either an expression `head\s+(C+)`, matched
      by the Patterns module, or some other regular expression, given by its
      source text and matched by the engine. */
  datatype Pattern =
    | LabelRun(head: string, charClass: CharClass)
    | Regex(source: string)

  datatype Rule = Rule(name: string, pattern: Pattern)

  /** Python's `re` for the expressions this model does not match itself:
      given an expression and a text, the first capture group of the
      leftmost match, or `None` when there is no match. */
  type Engine = (string, string) -> Option<string>

  /** One row of the header table: the rule's label and the value found. */
  datatype Field = Field(name: string, value: string)

  /** What the two file-name scalars hold when their rule finds nothing. */
  const Sentinel: string := "Desconhecido"

  const PreLabel: string := "Pré pedido"
  const SoldLabel: string := "Sold"

  /** The rule table, in its insertion order. */
  const Rules: seq<Rule> := [
    Rule(PreLabel, LabelRun("Pré pedido", Digit)),
    Rule(SoldLabel, LabelRun("Sold", Digit)),
    Rule("Vendedor", Regex(@"Vendedor\s+([A-Za-z\s]+)\n")),
    Rule("Data/Hora", LabelRun("Data/Hora", DateTimeChar)),
    Rule("Entrega estimada", LabelRun("Entrega estimada", DateTimeChar)),
    Rule("Data da price", LabelRun("Data da price", DateChar)),
    Rule("Total de itens", LabelRun("Total de itens", Digit)),
    Rule("C. Pagamento", Regex(@"C\. Pagamento\s+([\w\s\d]+)(?=\nValor do pedido)")),
    Rule("Valor do pedido", Regex(@"Valor do pedido\s+R\$\s([\d,.]+)"))
  ]

  /** `re.search(regex, texto)` and, on a match, `match.group(1)`. */
  function RuleSearch(rule: Rule, text: string, engine: Engine): Option<string> {
    match rule.pattern
    case LabelRun(head, c) => FirstCapture(head, c, text)
    case Regex(source) => engine(source, text)
  }

  /** The value column of a rule's row. */
  function FieldValue(rule: Rule, text: string, engine: Engine): string {
    match RuleSearch(rule, text, engine)
    case Some(g) => Strip(g)
    case None => ""
  }

  /** Only the first rule carries the `Pré pedido` label and only the second
      the `Sold` label. */
  lemma ScalarLabels(i: nat)
    requires i < |Rules|
    ensures Rules[i].name == PreLabel <==> i == 0
    ensures Rules[i].name == SoldLabel <==> i == 1
  {
  }

  /** What `pre_pedido_valor`, `sold_valor` or another scalar tracking the
      rules named `name` holds after the first `|t|` rules: the row value of
      the last such rule that matched, or the sentinel. */
  function LastValue(t: seq<Rule>, name: string, text: string, engine: Engine): string {
    if t == [] then Sentinel
    else
      var rule := t[|t| - 1];
      if rule.name == name && RuleSearch(rule, text, engine).Some? then FieldValue(rule, text, engine)
      else LastValue(t[..|t| - 1], name, text, engine)
  }

  /** What `pre_pedido_valor` or `sold_valor` holds after the loop: the
      stripped capture of its own rule, or the sentinel. */
  function Scalar(rule: Rule, text: string, engine: Engine): string {
    match RuleSearch(rule, text, engine)
    case Some(g) => Strip(g)
    case None => Sentinel
  }

  /** One more rule: the scalar changes only if that rule carries its name
      and matches. */
  lemma LastValueStep(t: seq<Rule>, i: nat, name: string, text: string, engine: Engine)
    requires i < |t|
    ensures LastValue(t[..i + 1], name, text, engine) ==
      if t[i].name == name && RuleSearch(t[i], text, engine).Some? then FieldValue(t[i], text, engine)
      else LastValue(t[..i], name, text, engine)
  {
    assert t[..i + 1][..i] == t[..i];
  }

  /** The header table a rule table gives for a text. */
  function Rows(t: seq<Rule>, text: string, engine: Engine): seq<Field> {
    seq(|t|, k requires 0 <= k < |t| => Field(t[k].name, FieldValue(t[k], text, engine)))
  }

  /** The rows built so far are those of the first `i` rules of the table. */
  ghost predicate RowsUpTo(fields: seq<Field>, t: seq<Rule>, i: nat, text: string, engine: Engine) {
    i <= |t| && |fields| == i &&
    forall k :: 0 <= k < i ==> fields[k] == Field(t[k].name, FieldValue(t[k], text, engine))
  }

  /** Appending the row of rule `i` extends the rows of the first `i` rules. */
  lemma RowsExtend(fields: seq<Field>, t: seq<Rule>, i: nat, row: Field, text: string, engine: Engine)
    requires i < |t| && RowsUpTo(fields, t, i, text, engine)
    requires row == Field(t[i].name, FieldValue(t[i], text, engine))
    ensures RowsUpTo(fields + [row], t, i + 1, text, engine)
  {
    var next := fields + [row];
    forall k | 0 <= k < i + 1
      ensures next[k] == Field(t[k].name, FieldValue(t[k], text, engine))
    {
      if k < i {
        assert next[k] == fields[k];
      }
    }
  }

  /** When exactly one rule of the table carries a name, the scalar tracking
      that name depends on that rule alone. */
  lemma {:induction false} LastValueUnique(t: seq<Rule>, name: string, j: nat, text: string, engine: Engine)
    requires j < |t| && t[j].name == name
    requires forall k :: 0 <= k < |t| && k != j ==> t[k].name != name
    ensures LastValue(t, name, text, engine) == Scalar(t[j], text, engine)
    decreases |t|
  {
    var last := |t| - 1;
    var front := t[..last];
    assert t[..last + 1] == t;
    LastValueStep(t, last, name, text, engine);
    if j < last {
      forall k | 0 <= k < |front| && k != j ensures front[k].name != name {
        assert front[k] == t[k];
      }
      assert front[j] == t[j];
      LastValueUnique(front, name, j, text, engine);
    } else {
      forall k | 0 <= k < |front| ensures front[k].name != name {
        assert front[k] == t[k];
      }
      LastValueStays(front, name, text, engine);
      ScalarIsValue(t[j], text, engine);
    }
  }

  /** The scalar of a rule is its row value when it matches, else the sentinel. */
  lemma ScalarIsValue(rule: Rule, text: string, engine: Engine)
    ensures RuleSearch(rule, text, engine).Some? ==> Scalar(rule, text, engine) == FieldValue(rule, text, engine)
    ensures RuleSearch(rule, text, engine).None? ==> Scalar(rule, text, engine) == Sentinel
  {
  }

  /** A scalar whose name no rule of the table carries keeps the sentinel. */
  lemma {:induction false} LastValueStays(t: seq<Rule>, name: string, text: string, engine: Engine)
    requires forall k :: 0 <= k < |t| ==> t[k].name != name
    ensures LastValue(t, name, text, engine) == Sentinel
    decreases |t|
  {
    if t != [] {
      var front := t[..|t| - 1];
      assert forall k :: 0 <= k < |front| ==> front[k].name != name by {
        forall k | 0 <= k < |front| ensures front[k].name != name {
          assert front[k] == t[k];
        }
      }
      LastValueStays(front, name, text, engine);
    }
  }

  /** The loop of `extrair_dados_pedido` over a rule table: one row per rule,
      in table order, holding the stripped capture of the rule's first match
      or "" when it does not match; `pre` and `sold` start as the sentinel and
      take the value of each matching rule named `Pré pedido` or `Sold`. */
  method ExtractFields(t: seq<Rule>, text: string, engine: Engine) returns (fields: seq<Field>, pre: string, sold: string)
    ensures |fields| == |t|
    ensures forall i :: 0 <= i < |t| ==> fields[i].name == t[i].name
    ensures forall i :: 0 <= i < |t| && RuleSearch(t[i], text, engine).None? ==> fields[i].value == ""
    ensures forall i :: 0 <= i < |t| && RuleSearch(t[i], text, engine).Some? ==>
      fields[i].value == Strip(RuleSearch(t[i], text, engine).value)
    ensures fields == Rows(t, text, engine)
    ensures pre == LastValue(t, PreLabel, text, engine)
    ensures sold == LastValue(t, SoldLabel, text, engine)
  {
    fields := [];
    pre := Sentinel;
    sold := Sentinel;
    for i := 0 to |t|
      invariant RowsUpTo(fields, t, i, text, engine)
      invariant pre == LastValue(t[..i], PreLabel, text, engine)
      invariant sold == LastValue(t[..i], SoldLabel, text, engine)
    {
      var rule := t[i];
      LastValueStep(t, i, PreLabel, text, engine);
      LastValueStep(t, i, SoldLabel, text, engine);
      var found := RuleSearch(rule, text, engine);
      var row: Field;
      if found.Some? {
        var value := Strip(found.value);
        row := Field(rule.name, value);
        if rule.name == PreLabel {
          pre := value;
        }
        if rule.name == SoldLabel {
          sold := value;
        }
      } else {
        row := Field(rule.name, "");
      }
      RowsExtend(fields, t, i, row, text, engine);
      fields := fields + [row];
    }
    assert t[..|t|] == t;
  }

  /** `extrair_dados_pedido`: nine rows in the order of the rule table; a
      rule that does not match gives "", one that matches the stripped first
      capture of its leftmost match; the two scalars are the sentinel unless
      their own rule matches, and then equal that rule's row value. */
  method ExtractHeader(text: string, engine: Engine) returns (fields: seq<Field>, pre: string, sold: string)
    ensures |fields| == |Rules| == 9
    ensures forall i :: 0 <= i < |fields| ==> fields[i].name == Rules[i].name
    ensures forall i :: 0 <= i < |fields| && RuleSearch(Rules[i], text, engine).None? ==> fields[i].value == ""
    ensures forall i :: 0 <= i < |fields| && RuleSearch(Rules[i], text, engine).Some? ==>
      fields[i].value == Strip(RuleSearch(Rules[i], text, engine).value)
    ensures pre == (if RuleSearch(Rules[0], text, engine).Some? then fields[0].value else Sentinel)
    ensures sold == (if RuleSearch(Rules[1], text, engine).Some? then fields[1].value else Sentinel)
    ensures pre == Scalar(Rules[0], text, engine) && sold == Scalar(Rules[1], text, engine)
    ensures fields == Rows(Rules, text, engine)
  {
    fields, pre, sold := ExtractFields(Rules, text, engine);
    forall k | 0 <= k < |Rules| ensures (Rules[k].name == PreLabel <==> k == 0) && (Rules[k].name == SoldLabel <==> k == 1) {
      ScalarLabels(k);
    }
    LastValueUnique(Rules, PreLabel, 0, text, engine);
    LastValueUnique(Rules, SoldLabel, 1, text, engine);
  }

  /** A `head\s+(C+)` rule that matches yields a value made of class
      characters; when the class has no
      white space (`\d`, `[\d/]`), the value is the whole non-empty capture. */
  lemma RunRuleValue(rule: Rule, text: string, engine: Engine)
    requires rule.pattern.LabelRun? && RuleSearch(rule, text, engine).Some?
    ensures var v := Strip(RuleSearch(rule, text, engine).value);
      forall i :: 0 <= i < |v| ==> InClass(rule.pattern.charClass, v[i])
    ensures rule.pattern.charClass in {Digit, DateChar} ==>
      Strip(RuleSearch(rule, text, engine).value) == RuleSearch(rule, text, engine).value != []
  {
    StrippedCapture(rule.pattern.head, rule.pattern.charClass, text);
  }

  /** When `Pré pedido` or `Sold` matches, its scalar is a non-empty string
      of digits; otherwise it is the sentinel. */
  lemma ScalarShape(i: nat, text: string, engine: Engine)
    requires i < 2
    ensures var v := Scalar(Rules[i], text, engine);
      v == Sentinel || (v != [] && forall k :: 0 <= k < |v| ==> IsDigit(v[k]))
  {
    if RuleSearch(Rules[i], text, engine).Some? {
      RunRuleValue(Rules[i], text, engine);
    }
  }
}
