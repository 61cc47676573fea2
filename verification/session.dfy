/** A `default_formatter` object and its stream operator: the formatter
    binds a node and keeps `key_path_` and `pending_table_separator_`
    between prints. */
module Session {
  import opened Nodes
  import opened Printer
  import Encoders
  import Inline
  import Blocks
  import Arrays
  import Columns

  /** The base formatter's scalar text for plain values: strings in double
      quotes with no escaping (the base formatter's quoting rules are not
      part of this model), and the encoders for everything else. Tables and
      arrays never reach it. */
  function ScalarText(n: Node): string
  {
    match n
    case Str(s) => "\"" + s + "\""
    case Int(v, flags) => Encoders.IntegerText(v, flags)
    case Flt(f, flags) => Encoders.FloatText(f, flags)
    case Bool(b) => Encoders.BoolText(b)
    case DateNode(d) => Encoders.DateText(d)
    case TimeNode(t) => Encoders.TimeText(t)
    case DateTimeNode(d, t, o) => Encoders.DateTimeText(d, t, o)
    case _ => ""
  }

  /** The indent settings a formatter built with `default_flags` has (the
      four-space indent, four columns wide, and both kinds of
      indentation), with a key and string text that is right for keys
      that may stand bare and strings that need no escaping, such as those
      of the documented example; the base formatter's quoting and escaping
      rules are not part of this model. */
  function DefaultConfig(): (c: Config)
    ensures c.indentString == "    " && c.indentColumns == |c.indentString|
    ensures c.indentArrayElements && c.indentSubTables
  {
    Config(DefaultIndent, 4, DefaultIndentArrayElements, DefaultIndentSubTables, k => k, ScalarText)
  }

  /** The formatter constants name the same tokens the float encoder
      writes for the special values. */
  lemma SpecialTokensAgree(f: Float, flags: nat)
    ensures f.cls == PosInf ==> Encoders.FloatText(f, flags) == InfToken
    ensures f.cls == NegInf ==> Encoders.FloatText(f, flags) == NegInfToken
    ensures f.cls == NaN ==> Encoders.FloatText(f, flags) == NanToken
  {
    Encoders.SpecialFloatTokens(f, flags);
  }

  /** A formatter: the bound node, its settings, and the two members that
      outlive a single print. */
  datatype Formatter = Formatter(source: Node, config: Config, keyPath: seq<string>, pending: bool)

  /** The constructor: an empty key path and no pending separator. */
  function NewFormatter(source: Node, config: Config): (f: Formatter)
    ensures f.source == source && f.keyPath == [] && !f.pending
  {
    Formatter(source, config, [], false)
  }

  /** `operator<<(std::ostream&, default_formatter&)` as written: attach,
      clear the key path, print, detach. The separator flag keeps whatever
      the previous print left in it. The rvalue overload forwards to this
      one. */
  function Emit(f: Formatter): (string, Formatter)
  {
    var s := Blocks.Print(f.config, Attached([], f.pending), f.source);
    (s.out, f.(keyPath := s.keyPath, pending := s.pending))
  }

  /** Each print starts from an empty key path, so whatever path a formatter
      holds does not reach the output, and the path is empty again after
      the print; the separator flag, by contrast, is carried over. */
  lemma EmitClearsKeyPath(f: Formatter, path: seq<string>)
    ensures Emit(f.(keyPath := path)).0 == Emit(f).0
    ensures Emit(f).1.keyPath == []
    ensures Emit(f).1.source == f.source && Emit(f).1.config == f.config
  {
  }

  /** The stream operator with the separator flag reset along with the key
      path. */
  function EmitReset(f: Formatter): (string, Formatter)
  {
    var s := Blocks.Print(f.config, Attached([], false), f.source);
    (s.out, f.(keyPath := s.keyPath, pending := s.pending))
  }

  /** With both members reset, every print of a formatter writes what the
      first print of a fresh formatter over the same node writes, so
      printing twice gives the same text twice. */
  lemma ResetPrintIsRepeatable(f: Formatter)
    ensures EmitReset(f).0 == Emit(NewFormatter(f.source, f.config)).0
    ensures EmitReset(EmitReset(f).1).0 == EmitReset(f).0
  {
  }

  // ---------------------------------------------------------------------
  // Printing the same formatter twice

  /** A root table whose only entry is a block sub-table `a` holding
      `x = 1`. */
  function SubTableOnly(): (t: Node)
    ensures t.Table? && !t.inline
  {
    Table([("a", Table([("x", Int(1, 0))], false))], false)
  }

  /** The text both prints of `SubTableOnly` share. */
  function SubTableOnlyBody(c: Config): string
  {
    HeaderLine(c, "a") + EntryLine(c, "x", Int(1, 0))
  }

  /** `[k]`: the header of a sub-table of the root. */
  function HeaderLine(c: Config, k: string): string
  {
    "[" + c.keyText(k) + "]"
  }

  /** `k = v` on a new line, for a scalar `v`. */
  function EntryLine(c: Config, k: string, v: Node): string
  {
    "\n" + c.keyText(k) + " = " + c.valueText(v)
  }

  /** Neither a table nor an array: printed by `print_value`. */
  predicate Scalar(v: Node)
  {
    !v.Table? && !v.Array?
  }

  lemma Regroup(a: string, b: string, c: string, d: string)
    ensures a + b + c + d == a + b + (c + d)
  {
  }

  /** Both prints of `SubTableOnly` write `[a]`, a line break and `x = 1`;
      the only difference is what is written before. */
  lemma SubTableOnlyText(c: Config, pending: bool)
    ensures Blocks.Print(c, Attached([], pending), SubTableOnly()).out
              == (if pending then "\n\n" else "") + SubTableOnlyBody(c)
    ensures Blocks.Print(c, Attached([], pending), SubTableOnly()).pending
  {
    var s0 := Attached([], pending).(indent := -1);
    var sub := Table([("x", Int(1, 0))], false);
    assert SubTableOnly().entries[0].1 == sub;
    FreshBlockRoot(c, pending, SubTableOnly());
    RootIsOneSubTable(c, s0);
    var r := Blocks.SubTable(c, s0, "a", sub);
    assert Blocks.Print(c, Attached([], pending), SubTableOnly()) == r;
    SingleEntrySubTable(c, s0, "a", "x", Int(1, 0));
    var lead := if pending then "\n\n" else "";
    assert r.out == [] + lead + HeaderLine(c, "a") + EntryLine(c, "x", Int(1, 0));
    FromEmpty(lead, HeaderLine(c, "a"), EntryLine(c, "x", Int(1, 0)));
  }

  /** A non-inline root table is printed one level out, so that its
      top-level headers sit at indent 0. */
  lemma FreshBlockRoot(c: Config, pending: bool, t: Node)
    requires t.Table? && !t.inline
    ensures Blocks.Print(c, Attached([], pending), t) == Blocks.PrintTable(c, Attached([], pending).(indent := -1), t)
  {
  }

  lemma FromEmpty(a: string, b: string, c: string)
    ensures [] + a + b + c == a + (b + c)
  {
  }

  /** The root has nothing for passes 1 and 3. */
  lemma RootIsOneSubTable(c: Config, s0: State)
    ensures Blocks.PrintTable(c, s0, SubTableOnly()) == Blocks.SubTable(c, s0, "a", SubTableOnly().entries[0].1)
  {
    var t := SubTableOnly();
    assert Blocks.PassOf(t.entries[0].1) == 2;
    assert Blocks.Pass1(c, s0, t, 0) == s0;
    var r := Blocks.SubTable(c, s0, "a", t.entries[0].1);
    assert Blocks.Pass2(c, s0, t, 0) == r;
    assert Blocks.Pass3(c, r, t, 0) == r;
  }

  /** A block sub-table `k` of the root whose one entry `k2 = v` is a
      scalar prints the separator if one is pending, its header and the
      entry on the next line, and leaves the flag raised. */
  lemma SingleEntrySubTable(c: Config, s0: State, k: string, k2: string, v: Node)
    requires s0.indent == -1 && s0.keyPath == []
    requires Scalar(v)
    ensures var r := Blocks.SubTable(c, s0, k, Table([(k2, v)], false));
            && r.out == s0.out + (if s0.pending then "\n\n" else "") + HeaderLine(c, k) + EntryLine(c, k2, v)
            && r.pending && !r.naked
  {
    var sub := Table([(k2, v)], false);
    var h := Blocks.TableHeaderText(c, s0.(keyPath := [k]));
    HeaderAtRoot(c, s0, k);
    HeaderNotSkipped(sub);
    var p := Blocks.PrintTable(c, h, sub);
    var r := Blocks.SubTable(c, s0, k, sub);
    assert r.out == p.out && r.pending == p.pending && r.naked == p.naked;
    OneEntryTable(c, h, k2, v);
    Regroup(s0.out, if s0.pending then "\n\n" else "", HeaderLine(c, k), EntryLine(c, k2, v));
  }

  lemma HeaderNotSkipped(sub: Node)
    requires sub.Table? && |sub.entries| == 1 && Scalar(sub.entries[0].1)
    ensures !Blocks.SkipsHeader(sub)
  {
    Blocks.SkipsHeaderIff(sub);
    assert Blocks.PassOf(sub.entries[0].1) == 1;
  }

  /** The header `[k]` at the root, one level in from the root's -1. */
  lemma HeaderAtRoot(c: Config, s0: State, k: string)
    requires s0.indent == -1 && s0.keyPath == []
    ensures var h := Blocks.TableHeaderText(c, s0.(keyPath := [k]));
            && h.out == s0.out + (if s0.pending then "\n\n" else "") + HeaderLine(c, k)
            && !h.naked && h.indent <= 0
  {
    var h := Blocks.TableHeaderText(c, s0.(keyPath := [k]));
    assert Pad(c, h.indent) == "";
    KeyPathSingle(c, k);
  }

  /** A table with one scalar entry `k = v`, printed right after a header
      at indent at most 0. */
  lemma OneEntryTable(c: Config, h: State, k: string, v: Node)
    requires Scalar(v)
    requires !h.naked && h.indent <= 0
    ensures Blocks.PrintTable(c, h, Table([(k, v)], false)).out == h.out + EntryLine(c, k, v)
    ensures Blocks.PrintTable(c, h, Table([(k, v)], false)).pending
    ensures !Blocks.PrintTable(c, h, Table([(k, v)], false)).naked
  {
    var sub := Table([(k, v)], false);
    assert Blocks.PassOf(sub.entries[0].1) == 1;
    var e := Blocks.KeyValueEntry(c, h, k, v);
    Blocks.KeyValueEntryText(c, h, k, v);
    assert Pad(c, h.indent) == "" && Inline.NestedText(c, h.indent, v) == c.valueText(v);
    LeadEntry(h.out, "\n", c.keyText(k), c.valueText(v));
    assert Blocks.Pass1(c, h, sub, 0) == e;
    assert Blocks.Pass2(c, e, sub, 0) == e;
    assert Blocks.Pass3(c, e, sub, 0) == e;
  }

  lemma KeyPathSingle(c: Config, k: string)
    ensures KeyPathText(c, [k]) == c.keyText(k)
  {
    assert KeyTexts(c, [k]) == [c.keyText(k)];
  }

  /** Printing the same formatter twice: the first print leaves the
      separator flag raised, and since `operator<<` resets only the key
      path, the second print starts with a blank line pair the first did
      not have. */
  lemma ReprintAddsBlankLines(c: Config)
    ensures var f := NewFormatter(SubTableOnly(), c);
            var first := Emit(f);
            var second := Emit(first.1);
            && first.1.pending
            && second.0 == "\n\n" + first.0
            && second.0 != first.0
  {
    var f := NewFormatter(SubTableOnly(), c);
    SubTableOnlyText(c, false);
    SubTableOnlyText(c, true);
    var first := Emit(f);
    assert first.1.pending;
    var text := SubTableOnlyBody(c);
    assert first.0 == text;
    assert Emit(first.1).0 == "\n\n" + text;
    assert |"\n\n" + text| != |text|;
  }

  /** With the flag reset, the two prints are the same. */
  lemma ResetReprintIsIdentical(c: Config)
    ensures var f := NewFormatter(SubTableOnly(), c);
            var first := EmitReset(f);
            EmitReset(first.1).0 == first.0 == SubTableOnlyBody(c)
  {
    SubTableOnlyText(c, false);
  }

  // ---------------------------------------------------------------------
  // The documented example

  /** The table of the class documentation's example: a string, two arrays
      of scalars and a sub-table with one string entry. */
  function Example(): (t: Node)
    ensures t.Table? && !t.inline && |t.entries| == 4
  {
    Table([("description", Str("This is some TOML, yo.")),
           ("fruit", Fruit()),
           ("numbers", Numbers()),
           ("table", Table([("foo", Str("bar"))], false))], false)
  }

  function Fruit(): Node
  {
    Array([Str("apple"), Str("orange"), Str("pear")])
  }

  function Numbers(): Node
  {
    Array([Int(1, 0), Int(2, 0), Int(3, 0), Int(4, 0), Int(5, 0)])
  }

  /** What a default formatter writes for `Example()`: the three values,
      a blank line, then the sub-table. Both arrays fit on one line, so
      they are written with a space inside each bracket. */
  const ExampleText: string :=
    "description = \"This is some TOML, yo.\""
    + "\nfruit = [ \"apple\", \"orange\", \"pear\" ]"
    + "\nnumbers = [ 1, 2, 3, 4, 5 ]"
    + "\n\n[table]"
    + "\nfoo = \"bar\""

  /** A fresh default formatter over the example writes `ExampleText`. */
  lemma ExamplePrints()
    ensures Emit(NewFormatter(Example(), DefaultConfig())).0 == ExampleText
  {
    var c := DefaultConfig();
    var s0 := Attached([], false).(indent := -1);
    var p1 := Blocks.Pass1(c, s0, Example(), 0);
    ExamplePass1(c, s0);
    SingleEntrySubTable(c, p1, "table", "foo", Str("bar"));
    ExamplePasses23(c, p1);
    TableLines(c);
    var p2 := Blocks.SubTable(c, p1, "table", Table([("foo", Str("bar"))], false));
    Assemble(p1.out, HeaderLine(c, "table"), EntryLine(c, "foo", Str("bar")));
    assert p2.out == ExampleText;
    var r := Blocks.PrintTable(c, s0, Example());
    assert r == p2;
    EmitFreshBlockTable(Example(), c);
  }

  /** A fresh formatter over a non-inline table prints it from indent -1. */
  lemma EmitFreshBlockTable(t: Node, c: Config)
    requires t.Table? && !t.inline
    ensures Emit(NewFormatter(t, c)).0 == Blocks.PrintTable(c, Attached([], false).(indent := -1), t).out
  {
    FreshBlockRoot(c, false, t);
  }

  lemma Assemble(values: string, header: string, entry: string)
    requires values == "description = \"This is some TOML, yo.\""
                       + "\nfruit = [ \"apple\", \"orange\", \"pear\" ]"
                       + "\nnumbers = [ 1, 2, 3, 4, 5 ]"
    requires "\n\n" + header == "\n\n[table]"
    requires entry == "\nfoo = \"bar\""
    ensures values + "\n\n" + header + entry == ExampleText
  {
    assert values + "\n\n" + header == values + ("\n\n" + header);
  }

  /** The header and entry of the sub-table `table`. */
  lemma TableLines(c: Config)
    requires c == DefaultConfig()
    ensures "\n\n" + HeaderLine(c, "table") == "\n\n[table]"
    ensures EntryLine(c, "foo", Str("bar")) == "\nfoo = \"bar\""
  {
    assert ScalarText(Str("bar")) == "\"bar\"";
  }

  /** Pass 1 of the root writes the three value lines and raises the flag. */
  lemma ExamplePass1(c: Config, s0: State)
    requires c == DefaultConfig() && s0 == Attached([], false).(indent := -1)
    ensures var p := Blocks.Pass1(c, s0, Example(), 0);
            && p.out == "description = \"This is some TOML, yo.\""
                        + "\nfruit = [ \"apple\", \"orange\", \"pear\" ]"
                        + "\nnumbers = [ 1, 2, 3, 4, 5 ]"
            && p.pending && !p.naked && p.indent == -1 && p.keyPath == []
  {
    var e1 := Blocks.KeyValueEntry(c, s0, "description", Str("This is some TOML, yo."));
    DescriptionEntry(c, s0);
    var e2 := Blocks.KeyValueEntry(c, e1, "fruit", Fruit());
    FruitEntry(c, e1);
    NumbersEntry(c, e2);
    ExamplePass1Entries(c, s0);
  }

  lemma DescriptionEntry(c: Config, s0: State)
    requires c == DefaultConfig() && s0 == Attached([], false).(indent := -1)
    ensures var e := Blocks.KeyValueEntry(c, s0, "description", Str("This is some TOML, yo."));
            && e.out == "description = \"This is some TOML, yo.\""
            && e.pending && !e.naked && e.indent == -1 && e.keyPath == []
  {
    DescriptionText(c);
    RootEntry(c, s0, "description", Str("This is some TOML, yo."), "\"This is some TOML, yo.\"");
    DescriptionLine();
  }

  lemma DescriptionText(c: Config)
    requires c == DefaultConfig()
    ensures Inline.NestedText(c, -1, Str("This is some TOML, yo.")) == "\"This is some TOML, yo.\""
  {
    QuotedDescription();
  }

  lemma QuotedDescription()
    ensures ScalarText(Str("This is some TOML, yo.")) == "\"This is some TOML, yo.\""
  {
    var d := "This is some TOML, yo.";
    assert ScalarText(Str(d)) == "\"" + d + "\"";
    DescriptionQuotes();
  }

  lemma DescriptionQuotes()
    ensures "\"" + "This is some TOML, yo." + "\"" == "\"This is some TOML, yo.\""
  {
  }

  lemma FruitEntry(c: Config, s: State)
    requires c == DefaultConfig() && s.indent == -1 && !s.naked
    ensures var e := Blocks.KeyValueEntry(c, s, "fruit", Fruit());
            && e.out == s.out + "\nfruit = [ \"apple\", \"orange\", \"pear\" ]"
            && e.pending && !e.naked && e.indent == -1 && e.keyPath == s.keyPath
  {
    FruitText(c);
    RootEntry(c, s, "fruit", Fruit(), "[ \"apple\", \"orange\", \"pear\" ]");
    FruitLine();
  }

  lemma NumbersEntry(c: Config, s: State)
    requires c == DefaultConfig() && s.indent == -1 && !s.naked
    ensures var e := Blocks.KeyValueEntry(c, s, "numbers", Numbers());
            && e.out == s.out + "\nnumbers = [ 1, 2, 3, 4, 5 ]"
            && e.pending && !e.naked && e.indent == -1 && e.keyPath == s.keyPath
  {
    NumbersText(c);
    RootEntry(c, s, "numbers", Numbers(), "[ 1, 2, 3, 4, 5 ]");
    NumbersLine();
  }

  lemma DescriptionLine()
    ensures [] + ("" + "description" + " = " + "\"This is some TOML, yo.\"")
            == "description = \"This is some TOML, yo.\""
  {
  }

  lemma FruitLine()
    ensures "\n" + "fruit" + " = " + "[ \"apple\", \"orange\", \"pear\" ]"
            == "\nfruit = [ \"apple\", \"orange\", \"pear\" ]"
  {
  }

  lemma NumbersLine()
    ensures "\n" + "numbers" + " = " + "[ 1, 2, 3, 4, 5 ]" == "\nnumbers = [ 1, 2, 3, 4, 5 ]"
  {
  }

  /** Pass 1 of the root is its first three entries in order. */
  lemma ExamplePass1Entries(c: Config, s0: State)
    ensures Blocks.Pass1(c, s0, Example(), 0)
              == Blocks.KeyValueEntry(c, Blocks.KeyValueEntry(c, Blocks.KeyValueEntry(c, s0,
                   "description", Str("This is some TOML, yo.")), "fruit", Fruit()), "numbers", Numbers())
  {
    var t := Example();
    ExamplePasses();
    var e1 := Blocks.KeyValueEntry(c, s0, "description", Str("This is some TOML, yo."));
    var e2 := Blocks.KeyValueEntry(c, e1, "fruit", Fruit());
    var e3 := Blocks.KeyValueEntry(c, e2, "numbers", Numbers());
    ValueEntry(c, s0, t, 0);
    ValueEntry(c, e1, t, 1);
    ValueEntry(c, e2, t, 2);
    assert Blocks.Pass1(c, e3, t, 3) == e3;
  }

  /** Pass 1 at a value entry prints it and moves on. */
  lemma ValueEntry(c: Config, s: State, t: Node, i: nat)
    requires t.Table? && i < |t.entries| && Blocks.PassOf(t.entries[i].1) == 1
    ensures Blocks.Pass1(c, s, t, i) == Blocks.Pass1(c, Blocks.KeyValueEntry(c, s, t.entries[i].0, t.entries[i].1), t, i + 1)
  {
  }

  /** One pass-1 entry of the root, at indent -1: the entry on a new line
      unless nothing has been written yet. */
  lemma RootEntry(c: Config, s: State, k: string, v: Node, text: string)
    requires s.indent == -1 && c.keyText(k) == k
    requires Inline.NestedText(c, -1, v) == text
    ensures var e := Blocks.KeyValueEntry(c, s, k, v);
            && e.out == s.out + ((if s.naked then "" else "\n") + k + " = " + text)
            && !e.naked && e.pending && e.indent == -1 && e.keyPath == s.keyPath
  {
    Blocks.KeyValueEntryText(c, s, k, v);
    assert Pad(c, -1) == "";
    LeadEntry(s.out, if s.naked then "" else "\n", k, text);
  }

  lemma LeadEntry(out: string, lead: string, k: string, text: string)
    ensures out + lead + "" + k + " = " + text == out + (lead + k + " = " + text)
  {
  }

  /** The pass each root entry belongs to. */
  lemma ExamplePasses()
    ensures Blocks.PassOf(Example().entries[0].1) == 1
    ensures Blocks.PassOf(Example().entries[1].1) == 1
    ensures Blocks.PassOf(Example().entries[2].1) == 1
    ensures Blocks.PassOf(Example().entries[3].1) == 2
  {
    assert !Arrays.IsArrayOfTables(Fruit().elems) by {
      assert Fruit().elems[0].Type() != TableType;
    }
    assert !Arrays.IsArrayOfTables(Numbers().elems) by {
      assert Numbers().elems[0].Type() != TableType;
    }
  }

  /** Passes 2 and 3 of the root: only the sub-table `table`. */
  lemma ExamplePasses23(c: Config, p1: State)
    ensures var p2 := Blocks.SubTable(c, p1, "table", Table([("foo", Str("bar"))], false));
            Blocks.Pass3(c, Blocks.Pass2(c, p1, Example(), 0), Example(), 0) == p2
  {
    var t := Example();
    ExamplePasses();
    var p2 := Blocks.SubTable(c, p1, "table", Table([("foo", Str("bar"))], false));
    assert Blocks.Pass2(c, p1, t, 3) == p2;
    assert Blocks.Pass2(c, p1, t, 0) == p2;
    assert Blocks.Pass3(c, p2, t, 0) == p2;
  }

  /** The fruit array fits on one line. */
  lemma FruitText(c: Config)
    requires c == DefaultConfig()
    ensures Inline.NestedText(c, -1, Fruit()) == "[ \"apple\", \"orange\", \"pear\" ]"
  {
    FruitColumns();
    var ps := Inline.ElemPieces(c, -1, Fruit(), false);
    FruitPieces(c);
    Join3(ps, ", ");
    FruitLiteral(ps[0], ps[1], ps[2]);
  }

  lemma FruitPieces(c: Config)
    requires c == DefaultConfig()
    ensures var ps := Inline.ElemPieces(c, -1, Fruit(), false);
            && |ps| == 3
            && ps[0] == "\"apple\"" && ps[1] == "\"orange\"" && ps[2] == "\"pear\""
  {
    var ps := Inline.ElemPieces(c, -1, Fruit(), false);
    assert ps[0] == ScalarText(Str("apple"));
    assert ps[1] == ScalarText(Str("orange"));
    assert ps[2] == ScalarText(Str("pear"));
  }

  lemma FruitColumns()
    ensures Columns.ExactColumns(Fruit()) == 30
  {
    var a := Fruit();
    assert Columns.ExactColumns(a.elems[0]) == 7;
    assert Columns.ExactColumns(a.elems[1]) == 8;
    assert Columns.ExactColumns(a.elems[2]) == 6;
  }

  lemma FruitLiteral(p0: string, p1: string, p2: string)
    requires p0 == "\"apple\"" && p1 == "\"orange\"" && p2 == "\"pear\""
    ensures "[ " + (p0 + ", " + p1 + ", " + p2) + " ]" == "[ \"apple\", \"orange\", \"pear\" ]"
  {
  }

  /** So does the numbers array. */
  lemma NumbersText(c: Config)
    requires c == DefaultConfig()
    ensures Inline.NestedText(c, -1, Numbers()) == "[ 1, 2, 3, 4, 5 ]"
  {
    NumbersColumns();
    var ps := Inline.ElemPieces(c, -1, Numbers(), false);
    NumbersPieces(c);
    Join5(ps, ", ");
    NumbersLiteral(ps);
  }

  lemma NumbersPieces(c: Config)
    requires c == DefaultConfig()
    ensures var ps := Inline.ElemPieces(c, -1, Numbers(), false);
            |ps| == 5 && forall i :: 0 <= i < 5 ==> ps[i] == [('0' as int + i + 1) as char]
  {
    var ps := Inline.ElemPieces(c, -1, Numbers(), false);
    forall i | 0 <= i < 5
      ensures ps[i] == [('0' as int + i + 1) as char]
    {
      OneDigit(i + 1);
    }
  }

  lemma NumbersColumns()
    ensures Columns.ExactColumns(Numbers()) == 18
  {
    var a := Numbers();
    forall i | 0 <= i < 5
      ensures Columns.ExactColumns(a.elems[i]) == 1
    {
      OneDigit(i + 1);
    }
  }

  lemma NumbersLiteral(ps: seq<string>)
    requires |ps| == 5
    requires forall i :: 0 <= i < 5 ==> ps[i] == [('0' as int + i + 1) as char]
    ensures "[ " + (ps[0] + ", " + ps[1] + ", " + ps[2] + ", " + ps[3] + ", " + ps[4]) + " ]" == "[ 1, 2, 3, 4, 5 ]"
  {
    assert ps[0] == "1" && ps[1] == "2" && ps[2] == "3" && ps[3] == "4" && ps[4] == "5";
  }

  /** A one-digit positive integer is written as that digit. */
  lemma OneDigit(k: nat)
    requires 1 <= k <= 9
    ensures ScalarText(Int(k, 0)) == [('0' as int + k) as char]
    ensures Columns.ExactColumns(Int(k, 0)) == 1
  {
    assert Encoders.Digits(k, 10) == [Encoders.DigitChar(k)];
  }

  lemma Join3(ps: seq<string>, sep: string)
    requires |ps| == 3
    ensures Join(ps, sep) == ps[0] + sep + ps[1] + sep + ps[2]
  {
    var tail := ps[1..];
    assert tail[1..] == [ps[2]];
    assert Join(tail, sep) == ps[1] + sep + ps[2];
    assert Join(ps, sep) == ps[0] + sep + (ps[1] + sep + ps[2]);
  }

  lemma Join5(ps: seq<string>, sep: string)
    requires |ps| == 5
    ensures Join(ps, sep) == ps[0] + sep + ps[1] + sep + ps[2] + sep + ps[3] + sep + ps[4]
  {
    var tail := ps[2..];
    Join3(tail, sep);
    assert ps[1..][1..] == tail;
    assert Join(ps[1..], sep) == ps[1] + sep + Join(tail, sep);
    assert Join(ps, sep) == ps[0] + sep + (ps[1] + sep + (ps[2] + sep + ps[3] + sep + ps[4]));
  }
}
