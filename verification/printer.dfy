/** The state `default_formatter` threads through a print, and the few
    operations of its base formatter that the layout relies on.

    The stream becomes the string `out`. The base formatter's own text for
    keys and scalar values (quoting, escaping, float conversion) is kept
    abstract in `Config`; its newline and indent behaviour is modelled with
    the "naked newline" bit it keeps: a non-forced newline is written only
    when something has been written since the last one. */
module Printer {
  import opened Nodes

  /** The formatter's settings: the indent string and its width in columns,
      the two indentation flags, and the base formatter's text for a key
      segment and for a scalar value. */
  datatype Config = Config(
    indentString: string,
    indentColumns: nat,
    indentArrayElements: bool,
    indentSubTables: bool,
    keyText: string -> string,
    valueText: Node -> string)

  /** One line a block-table print begins, with the key path it names:
      `k = v`, `[a.b]` or `[[a.b]]`. */
  datatype Line =
    | KeyValue(path: seq<string>)
    | TableHeader(path: seq<string>)
    | ArrayHeader(path: seq<string>)

  /** The formatter's mutable state: text written so far, indent level, the
      naked-newline bit, `key_path_`, `pending_table_separator_`, and the
      lines begun so far. */
  datatype State = State(
    out: string,
    indent: int,
    naked: bool,
    keyPath: seq<string>,
    pending: bool,
    lines: seq<Line>)

  /** `default_formatter::constants`: the special float tokens. */
  const InfToken: string := "inf"
  const NegInfToken: string := "-inf"
  const NanToken: string := "nan"

  /** The indent string the constructor passes to the base formatter. */
  const DefaultIndent: string := "    "

  /** `default_flags` includes `indentation`, which turns on both kinds of
      indentation. */
  const DefaultIndentArrayElements: bool := true
  const DefaultIndentSubTables: bool := true

  /** The state `attach` leaves: empty output, indent 0, at a fresh line. */
  function Attached(keyPath: seq<string>, pending: bool): (s: State)
    ensures s.out == [] && s.indent == 0 && s.naked
    ensures s.keyPath == keyPath && s.pending == pending && s.lines == []
  {
    State([], 0, true, keyPath, pending, [])
  }

  // ---------------------------------------------------------------------
  // Text helpers

  /** `parts` separated by `sep`. */
  function Join(parts: seq<string>, sep: string): string
    decreases |parts|
  {
    if |parts| == 0 then ""
    else if |parts| == 1 then parts[0]
    else parts[0] + sep + Join(parts[1..], sep)
  }

  /** Peeling the first part off a suffix of a joined list. */
  lemma JoinFrom(parts: seq<string>, sep: string, i: nat)
    requires i < |parts|
    ensures Join(parts[i..], sep) == parts[i] + (if i + 1 < |parts| then sep else "") + Join(parts[i + 1..], sep)
  {
    assert parts[i..][0] == parts[i];
    assert parts[i..][1..] == parts[i + 1..];
  }

  /** A joined list contains a character only if a part or the separator
      does. */
  lemma {:induction false} JoinAvoids(parts: seq<string>, sep: string, ch: char)
    requires ch !in sep
    requires forall i :: 0 <= i < |parts| ==> ch !in parts[i]
    ensures ch !in Join(parts, sep)
    decreases |parts|
  {
    if |parts| > 1 {
      JoinAvoids(parts[1..], sep, ch);
    }
  }

  /** `s` repeated `n` times. */
  function Repeat(s: string, n: nat): string
  {
    if n == 0 then "" else Repeat(s, n - 1) + s
  }

  /** What `print_indent` writes at level `level`: nothing at or below 0. */
  function Pad(c: Config, level: int): string
  {
    if level <= 0 then "" else Repeat(c.indentString, level)
  }

  /** The level clamped at 0, as the width bias uses it. */
  function Clamp(level: int): nat
  {
    if level < 0 then 0 else level
  }

  // ---------------------------------------------------------------------
  // Base formatter operations

  /** `impl::print_to_stream` of fixed text: the naked bit is untouched. */
  function Raw(s: State, text: string): (r: State)
    ensures r == s.(out := s.out + text)
  {
    s.(out := s.out + text)
  }

  /** `print_newline(force)`: a line break unless one was just written and
      the break is not forced. */
  function Newline(s: State, force: bool): (r: State)
    ensures r.naked
    ensures r.out == if !s.naked || force then s.out + "\n" else s.out
    ensures r == s.(out := r.out, naked := true)
  {
    if !s.naked || force then s.(out := s.out + "\n", naked := true) else s.(naked := true)
  }

  /** `print_indent`: the indent string once per level. */
  function PrintIndent(c: Config, s: State): (r: State)
    ensures r.out == s.out + Pad(c, s.indent)
    ensures r.naked == (s.naked && s.indent <= 0)
    ensures r == s.(out := r.out, naked := r.naked)
  {
    if s.indent > 0 then s.(out := s.out + Repeat(c.indentString, s.indent), naked := false) else s
  }

  /** `print_key_segment`: one key through the base formatter's string
      printing. */
  function Key(c: Config, s: State, k: string): (r: State)
    ensures r == s.(out := s.out + c.keyText(k), naked := false)
  {
    s.(out := s.out + c.keyText(k), naked := false)
  }

  /** `print_value` of a scalar. */
  function Value(c: Config, s: State, n: Node): (r: State)
    ensures r == s.(out := s.out + c.valueText(n), naked := false)
  {
    s.(out := s.out + c.valueText(n), naked := false)
  }

  /** `clear_naked_newline`. */
  function ClearNaked(s: State): (r: State)
    ensures r == s.(naked := false)
  {
    s.(naked := false)
  }

  /** `print_pending_table_separator`: two forced newlines and a cleared
      flag when the flag is set, and nothing at all otherwise. */
  function PendingSeparator(s: State): (r: State)
    ensures !r.pending
    ensures r.out == if s.pending then s.out + "\n\n" else s.out
    ensures r.naked == (s.pending || s.naked)
    ensures r == s.(out := r.out, naked := r.naked, pending := false)
  {
    if s.pending then Newline(Newline(s, true), true).(pending := false) else s
  }

  /** The key path as the text `print_key_path` writes: each segment's key
      text, separated by dots. */
  function KeyPathText(c: Config, path: seq<string>): string
  {
    Join(KeyTexts(c, path), ".")
  }

  /** The key text of each segment. */
  function KeyTexts(c: Config, path: seq<string>): (parts: seq<string>)
    ensures |parts| == |path|
    ensures forall i :: 0 <= i < |path| ==> parts[i] == c.keyText(path[i])
  {
    seq(|path|, i requires 0 <= i < |path| => c.keyText(path[i]))
  }

  /** `print_key_path`, segment by segment from segment `i`. */
  function KeyPathFrom(c: Config, s: State, i: nat): State
    requires i <= |s.keyPath|
    decreases |s.keyPath| - i
  {
    if i == |s.keyPath| then s
    else
      var s1 := if i > 0 then Raw(s, ".") else s;
      KeyPathFrom(c, Key(c, s1, s.keyPath[i]), i + 1)
  }

  function PrintKeyPath(c: Config, s: State): State
  {
    ClearNaked(KeyPathFrom(c, s, 0))
  }

  lemma {:induction false} KeyPathFromText(c: Config, s: State, i: nat)
    requires i <= |s.keyPath|
    ensures KeyPathFrom(c, s, i).out ==
              s.out + (if 0 < i < |s.keyPath| then "." else "")
              + Join(KeyTexts(c, s.keyPath)[i..], ".")
    ensures KeyPathFrom(c, s, i) == s.(out := KeyPathFrom(c, s, i).out, naked := KeyPathFrom(c, s, i).naked)
    decreases |s.keyPath| - i
  {
    var parts := KeyTexts(c, s.keyPath);
    if i < |s.keyPath| {
      var s1 := if i > 0 then Raw(s, ".") else s;
      var s2 := Key(c, s1, s.keyPath[i]);
      KeyPathFromText(c, s2, i + 1);
      JoinFrom(parts, ".", i);
      var pre := if i > 0 then "." else "";
      var post := if i + 1 < |s.keyPath| then "." else "";
      JoinRegroup(s.out, pre, parts[i], post, Join(parts[i + 1..], "."));
    }
  }

  lemma JoinRegroup(a: string, b: string, c: string, d: string, e: string)
    ensures a + b + c + d + e == a + b + (c + d + e)
  {
  }

  /** `print_key_path` writes the dotted key path and changes nothing else
      but the naked bit. */
  lemma KeyPathWritesPath(c: Config, s: State)
    ensures PrintKeyPath(c, s) == s.(out := s.out + KeyPathText(c, s.keyPath), naked := false)
  {
    var parts := KeyTexts(c, s.keyPath);
    KeyPathFromText(c, s, 0);
    assert parts[0..] == parts;
    var r := KeyPathFrom(c, s, 0);
    assert r.out == s.out + "" + Join(parts, ".");
    assert s.out + "" == s.out;
    assert r == s.(out := s.out + KeyPathText(c, s.keyPath), naked := r.naked);
  }
}
