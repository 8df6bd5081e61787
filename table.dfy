/** `obter_tabela_transicoes`: the transition table as text, one line per
    state in sorted order, one tab-separated column per sorted symbol. */
module Table {
  import opened StringOrder
  import opened Automaton

  const Title: string := "Tabela de Transições:"
  const Corner: string := "Estado"
  /** What a cell shows when the dictionary has no entry for it. */
  const Missing: string := "∅"

  /** Python's `sep.join(parts)` for a one-character separator. */
  function Join(sep: char, parts: seq<string>): string
    decreases |parts|
  {
    if |parts| == 0 then ""
    else if |parts| == 1 then parts[0]
    else parts[0] + [sep] + Join(sep, parts[1..])
  }

  /** Every part followed by `sep`: how the loops append `x + "\t"` and
      `linha + "\n"`. */
  function Terminated(sep: char, parts: seq<string>): string
    decreases |parts|
  {
    if |parts| == 0 then "" else parts[0] + [sep] + Terminated(sep, parts[1..])
  }

  /** Python's `s.split(sep)`: the fields between separators, at least one. */
  function Split(sep: char, s: string): (fields: seq<string>)
    ensures |fields| >= 1
    decreases |s|
  {
    if |s| == 0 then [""]
    else if s[0] == sep then [""] + Split(sep, s[1..])
    else
      var rest := Split(sep, s[1..]);
      [[s[0]] + rest[0]] + rest[1..]
  }

  /** `afd.delta.get((estado, simbolo), "∅")`: a present entry is shown as
      it is, even when it is the empty string. */
  function Cell(delta: map<(State, Symbol), State>, q: State, a: Symbol): string {
    if (q, a) in delta then delta[(q, a)] else Missing
  }

  /** The cells of the row of `q`, one per symbol in `symbols`' order. */
  function Cells(delta: map<(State, Symbol), State>, q: State, symbols: seq<Symbol>): seq<string> {
    seq(|symbols|, j requires 0 <= j < |symbols| => Cell(delta, q, symbols[j]))
  }

  /** `linha`: the state, then every cell, each followed by a tab. */
  function Row(delta: map<(State, Symbol), State>, q: State, symbols: seq<Symbol>): string {
    Terminated('\t', [q] + Cells(delta, q, symbols))
  }

  /** The rows of `states`, in their order. */
  function Rows(delta: map<(State, Symbol), State>, states: seq<State>, symbols: seq<Symbol>): seq<string> {
    seq(|states|, i requires 0 <= i < |states| => Row(delta, states[i], symbols))
  }

  /** The header line, without its line break. */
  function Header(symbols: seq<Symbol>): string {
    Corner + "\t" + Join('\t', symbols)
  }

  /** The whole text for states and symbols listed in the given orders. */
  function TableText(delta: map<(State, Symbol), State>, states: seq<State>, symbols: seq<Symbol>): string {
    Terminated('\n', [Title, Header(symbols)] + Rows(delta, states, symbols))
  }

  /** No string of `parts` holds the separator. */
  predicate Free(sep: char, parts: seq<string>) {
    forall i :: 0 <= i < |parts| ==> sep !in parts[i]
  }

  /** Appending one more part to a terminated list. */
  lemma {:induction false} TerminatedSnoc(sep: char, parts: seq<string>, x: string)
    ensures Terminated(sep, parts + [x]) == Terminated(sep, parts) + x + [sep]
    decreases |parts|
  {
    if |parts| > 0 {
      assert (parts + [x])[1..] == parts[1..] + [x];
      TerminatedSnoc(sep, parts[1..], x);
    } else {
      assert parts + [x] == [x];
    }
  }

  /** Splitting a string without the separator gives the string itself. */
  lemma {:induction false} SplitPlain(sep: char, s: string)
    requires sep !in s
    ensures Split(sep, s) == [s]
    decreases |s|
  {
    if |s| > 0 {
      SplitPlain(sep, s[1..]);
      assert [s[0]] + s[1..] == s;
    }
  }

  /** A field without the separator, the separator, and the rest. */
  lemma {:induction false} SplitField(sep: char, a: string, t: string)
    requires sep !in a
    ensures Split(sep, a + [sep] + t) == [a] + Split(sep, t)
    decreases |a|
  {
    if |a| == 0 {
      assert a + [sep] + t == [sep] + t;
      assert ([sep] + t)[1..] == t;
    } else {
      var s := a + [sep] + t;
      assert s[0] == a[0] && s[1..] == a[1..] + [sep] + t;
      SplitField(sep, a[1..], t);
      assert [a[0]] + a[1..] == a;
    }
  }

  /** Splitting a terminated list gives back its parts and a final empty field. */
  lemma {:induction false} SplitTerminated(sep: char, parts: seq<string>)
    requires Free(sep, parts)
    ensures Split(sep, Terminated(sep, parts)) == parts + [""]
    decreases |parts|
  {
    if |parts| > 0 {
      SplitField(sep, parts[0], Terminated(sep, parts[1..]));
      SplitTerminated(sep, parts[1..]);
      assert [parts[0]] + parts[1..] == parts;
    }
  }

  /** Splitting a joined list gives back its parts: `"\t".join` and `split`
      are inverse when no part holds the separator. */
  lemma {:induction false} SplitJoin(sep: char, parts: seq<string>)
    requires |parts| >= 1 && Free(sep, parts)
    ensures Split(sep, Join(sep, parts)) == parts
    decreases |parts|
  {
    if |parts| == 1 {
      SplitPlain(sep, parts[0]);
    } else {
      SplitField(sep, parts[0], Join(sep, parts[1..]));
      SplitJoin(sep, parts[1..]);
      assert [parts[0]] + parts[1..] == parts;
    }
  }

  /** The header holds the corner label, then the symbols in order; with no
      symbol at all, one empty field follows the label. */
  lemma HeaderFields(symbols: seq<Symbol>)
    requires Free('\t', symbols)
    ensures Split('\t', Header(symbols)) == [Corner] + (if symbols == [] then [""] else symbols)
  {
    assert Header(symbols) == Corner + ['\t'] + Join('\t', symbols);
    SplitField('\t', Corner, Join('\t', symbols));
    if symbols != [] {
      SplitJoin('\t', symbols);
    }
  }

  /** The row of `q` holds `q`, then for each symbol its target, or "∅" when
      the dictionary has no entry, then an empty field after the last tab. */
  lemma RowFields(delta: map<(State, Symbol), State>, q: State, symbols: seq<Symbol>)
    requires '\t' !in q
    requires forall k {:trigger delta[k]} :: k in delta ==> '\t' !in delta[k]
    ensures var f := Split('\t', Row(delta, q, symbols));
      |f| == |symbols| + 2 && f[0] == q && f[|symbols| + 1] == "" &&
      forall j :: 0 <= j < |symbols| ==>
        f[j + 1] == (if (q, symbols[j]) in delta then delta[(q, symbols[j])] else Missing)
  {
    var parts := [q] + Cells(delta, q, symbols);
    forall i | 0 <= i < |parts| ensures '\t' !in parts[i] {
      if i > 0 {
        var k := (q, symbols[i - 1]);
        if k in delta {
          assert '\t' !in delta[k];
        }
      }
    }
    SplitTerminated('\t', parts);
  }

  /** The table is the title, the header and one row per state in the given
      order, each on its own line, with nothing after the last line break. */
  lemma TableLines(delta: map<(State, Symbol), State>, states: seq<State>, symbols: seq<Symbol>)
    requires Free('\n', states) && Free('\n', symbols)
    requires forall k {:trigger delta[k]} :: k in delta ==> '\n' !in delta[k]
    ensures var lines := Split('\n', TableText(delta, states, symbols));
      |lines| == |states| + 3 && lines[0] == Title && lines[1] == Header(symbols) &&
      lines[|states| + 2] == "" &&
      forall i :: 0 <= i < |states| ==> lines[i + 2] == Row(delta, states[i], symbols)
  {
    var parts := [Title, Header(symbols)] + Rows(delta, states, symbols);
    NoLineBreakInJoin(symbols);
    assert '\n' !in Header(symbols);
    forall i | 2 <= i < |parts| ensures '\n' !in parts[i] {
      NoLineBreakInRow(delta, states[i - 2], symbols);
    }
    SplitTerminated('\n', parts);
  }

  /** Joining strings without line breaks makes none. */
  lemma {:induction false} NoLineBreakInJoin(parts: seq<string>)
    requires Free('\n', parts)
    ensures '\n' !in Join('\t', parts)
    decreases |parts|
  {
    if |parts| > 1 {
      NoLineBreakInJoin(parts[1..]);
    }
  }

  /** Terminating strings without line breaks by tabs makes none. */
  lemma {:induction false} NoLineBreakInTerminated(parts: seq<string>)
    requires Free('\n', parts)
    ensures '\n' !in Terminated('\t', parts)
    decreases |parts|
  {
    if |parts| > 0 {
      NoLineBreakInTerminated(parts[1..]);
    }
  }

  /** A row has no line break when its state and targets have none. */
  lemma NoLineBreakInRow(delta: map<(State, Symbol), State>, q: State, symbols: seq<Symbol>)
    requires '\n' !in q
    requires forall k {:trigger delta[k]} :: k in delta ==> '\n' !in delta[k]
    ensures '\n' !in Row(delta, q, symbols)
  {
    var parts := [q] + Cells(delta, q, symbols);
    forall i | 0 <= i < |parts| ensures '\n' !in parts[i] {
      if i > 0 {
        var k := (q, symbols[i - 1]);
        if k in delta {
          assert '\n' !in delta[k];
        }
      }
    }
    NoLineBreakInTerminated(parts);
  }

  /** The inner loop: `linha += str(transicao) + "\t"` for every sorted symbol. */
  method BuildRow(delta: map<(State, Symbol), State>, q: State, symbols: seq<Symbol>) returns (line: string)
    ensures line == Row(delta, q, symbols)
  {
    line := q + "\t";
    assert line == Terminated('\t', [q] + Cells(delta, q, symbols[..0]));
    for j := 0 to |symbols|
      invariant line == Terminated('\t', [q] + Cells(delta, q, symbols[..j]))
    {
      var cell := if (q, symbols[j]) in delta then delta[(q, symbols[j])] else Missing;
      TerminatedSnoc('\t', [q] + Cells(delta, q, symbols[..j]), cell);
      assert [q] + Cells(delta, q, symbols[..j + 1]) == [q] + Cells(delta, q, symbols[..j]) + [cell];
      line := line + cell + "\t";
    }
    assert symbols[..|symbols|] == symbols;
  }

  /** `obter_tabela_transicoes(afd)`, returning also `estados_ordenados` and
      `simbolos_ordenados`; by `EnumerationUnique` they are the only sorted
      lists of the states and symbols. */
  method TransitionTable(afd: Afd) returns (table: string, states: seq<State>, symbols: seq<Symbol>)
    ensures Enumerates(states, afd.Q) && Enumerates(symbols, afd.sigma)
    ensures table == TableText(afd.delta, states, symbols)
  {
    states := Sort(afd.Q);
    symbols := Sort(afd.sigma);
    table := Title + "\n";
    table := table + Corner + "\t" + Join('\t', symbols) + "\n";
    assert Rows(afd.delta, states[..0], symbols) == [];
    assert [Title, Header(symbols)][1..] == [Header(symbols)] && [Header(symbols)][1..] == [];
    assert Terminated('\n', [Header(symbols)]) == Header(symbols) + "\n";
    assert table == Terminated('\n', [Title, Header(symbols)]);
    assert [Title, Header(symbols)] + Rows(afd.delta, states[..0], symbols) == [Title, Header(symbols)];
    for i := 0 to |states|
      invariant table == Terminated('\n', [Title, Header(symbols)] + Rows(afd.delta, states[..i], symbols))
    {
      var line := BuildRow(afd.delta, states[i], symbols);
      ghost var before := [Title, Header(symbols)] + Rows(afd.delta, states[..i], symbols);
      TerminatedSnoc('\n', before, line);
      assert [Title, Header(symbols)] + Rows(afd.delta, states[..i + 1], symbols) == before + [line];
      table := table + line + "\n";
    }
    assert states[..|states|] == states;
  }
}
