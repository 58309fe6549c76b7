/**
 * Input parsing and restriction (fileParsing.py), over the text of the
 * files rather than the files themselves.
 *
 * The Python string operations used (`str.strip`, `str.split` with a
 * separator, iterating a text file line by line, `reduce(operator.add,
 * ...)`) are defined here with the properties the parsers rely on.
 */
module FileParsing {
  import opened Common

  // ---------------------------------------------------------------------
  // Python's string operations
  // ---------------------------------------------------------------------

  /** `str.isspace()` for one character: the characters `str.strip()` removes. */
  predicate IsSpace(c: char) {
    || c == ' ' || c == '\t' || c == '\n' || c == '\r' || c == '\U{000b}' || c == '\U{000c}'
    || ('\U{001c}' <= c <= '\U{001f}') || c == '\U{0085}' || c == '\U{00a0}' || c == '\U{1680}'
    || ('\U{2000}' <= c <= '\U{200a}') || c == '\U{2028}' || c == '\U{2029}' || c == '\U{202f}'
    || c == '\U{205f}' || c == '\U{3000}'
  }

  predicate IsNewline(c: char) {
    c == '\n'
  }

  function StripLeft(s: string, drop: char -> bool): (r: string)
    ensures |r| <= |s|
  {
    if s != [] && drop(s[0]) then StripLeft(s[1..], drop) else s
  }

  function StripRight(s: string, drop: char -> bool): (r: string)
    ensures |r| <= |s|
  {
    if s != [] && drop(s[|s| - 1]) then StripRight(s[..|s| - 1], drop) else s
  }

  /** `lstrip` removes a prefix of droppable characters and stops at one that is not. */
  lemma {:induction false} StripLeftSpec(s: string, drop: char -> bool)
    ensures var r := StripLeft(s, drop);
            && r == s[|s| - |r|..]
            && (forall i | 0 <= i < |s| - |r| :: drop(s[i]))
            && (r != [] ==> !drop(r[0]))
  {
    if s != [] && drop(s[0]) {
      StripLeftSpec(s[1..], drop);
      var r := StripLeft(s, drop);
      assert s[1..][|s| - 1 - |r|..] == s[|s| - |r|..];
      forall i | 1 <= i < |s| - |r| ensures drop(s[i]) {
        assert s[i] == s[1..][i - 1];
      }
    }
  }

  /** `rstrip` removes a suffix of droppable characters and stops at one that is not. */
  lemma {:induction false} StripRightSpec(s: string, drop: char -> bool)
    ensures var r := StripRight(s, drop);
            && r == s[..|r|]
            && (forall i | |r| <= i < |s| :: drop(s[i]))
            && (r != [] ==> !drop(r[|r| - 1]))
  {
    if s != [] && drop(s[|s| - 1]) {
      StripRightSpec(s[..|s| - 1], drop);
      var r := StripRight(s, drop);
      assert s[..|s| - 1][..|r|] == s[..|r|];
      forall i | |r| <= i < |s| - 1 ensures drop(s[i]) {
        assert s[i] == s[..|s| - 1][i];
      }
    }
  }

  /** `s.strip(chars)`: `drop` says which characters are removed from both ends. */
  function Strip(s: string, drop: char -> bool): string {
    StripRight(StripLeft(s, drop), drop)
  }

  /**
   * The stripped string is a slice of `s` whose end characters would not
   * be stripped, and everything cut off on either side would be.
   */
  lemma StripSpec(s: string, drop: char -> bool)
    ensures var r := Strip(s, drop);
            exists i, j | 0 <= i <= j <= |s| ::
              && r == s[i..j]
              && (forall k | 0 <= k < i :: drop(s[k]))
              && (forall k | j <= k < |s| :: drop(s[k]))
    ensures var r := Strip(s, drop);
            r != [] ==> !drop(r[0]) && !drop(r[|r| - 1])
  {
    var l := StripLeft(s, drop);
    var r := StripRight(l, drop);
    StripLeftSpec(s, drop);
    StripRightSpec(l, drop);
    var i := |s| - |l|;
    var j := i + |r|;
    assert r == s[i..j];
    forall k | j <= k < |s| ensures drop(s[k]) {
      assert s[k] == l[k - i];
    }
  }

  /** A string with nothing to strip at its ends is left as it is. */
  lemma StripNothing(s: string, drop: char -> bool)
    requires s != [] ==> !drop(s[0]) && !drop(s[|s| - 1])
    ensures Strip(s, drop) == s
  {
  }

  /**
   * `s.split(sep)`: the pieces between the separators, at least one, and
   * empty pieces kept (`"".split(sep) == [""]`).
   */
  function Split(s: string, sep: char): (r: seq<string>)
    ensures |r| >= 1
  {
    if s == [] then [[]]
    else
      var r' := Split(s[..|s| - 1], sep);
      var c := s[|s| - 1];
      if c == sep then r' + [[]]
      else r'[..|r'| - 1] + [r'[|r'| - 1] + [c]]
  }

  /** No piece contains the separator. */
  lemma {:induction false} SplitNoSep(s: string, sep: char)
    ensures forall i | 0 <= i < |Split(s, sep)| :: sep !in Split(s, sep)[i]
  {
    if s != [] {
      var init, c := s[..|s| - 1], s[|s| - 1];
      SplitNoSep(init, sep);
      var p := Split(init, sep);
      if c != sep {
        var k := |p| - 1;
        assert sep !in p[k];
        assert sep !in p[k] + [c];
        var r := p[..k] + [p[k] + [c]];
        assert Split(s, sep) == r;
        assert forall i | 0 <= i < k :: r[i] == p[i];
        assert r[k] == p[k] + [c];
      } else {
        assert forall i | 0 <= i < |p| :: (p + [[]])[i] == p[i];
      }
    }
  }

  /** `sep.join(parts)`. */
  function Join(parts: seq<string>, sep: char): string {
    if parts == [] then []
    else if |parts| == 1 then parts[0]
    else Join(parts[..|parts| - 1], sep) + [sep] + parts[|parts| - 1]
  }

  lemma JoinLast(init: seq<string>, x: string, c: char, sep: char)
    ensures Join(init + [x + [c]], sep) == Join(init + [x], sep) + [c]
  {
    if init != [] {
      assert (init + [x + [c]])[..|init|] == init;
      assert (init + [x])[..|init|] == init;
    }
  }

  /** Joining the pieces with the separator gives back the string. */
  lemma {:induction false} SplitJoin(s: string, sep: char)
    ensures Join(Split(s, sep), sep) == s
  {
    if s != [] {
      var init, c := s[..|s| - 1], s[|s| - 1];
      var p := Split(init, sep);
      SplitJoin(init, sep);
      if c == sep {
        assert (p + [[]])[..|p|] == p;
      } else {
        var k := |p| - 1;
        JoinLast(p[..k], p[k], c, sep);
        assert p[..k] + [p[k]] == p;
      }
      assert s == init + [c];
    }
  }

  /** Appending text without a separator extends the last piece. */
  lemma {:induction false} SplitTail(a: string, b: string, sep: char)
    requires sep !in b
    ensures var p := Split(a, sep);
            Split(a + b, sep) == p[..|p| - 1] + [p[|p| - 1] + b]
  {
    var p := Split(a, sep);
    var n := |p|;
    if b == [] {
      assert a + b == a;
      assert p[n - 1] + b == p[n - 1];
      assert p[..n - 1] + [p[n - 1]] == p;
    } else {
      var b', c := b[..|b| - 1], b[|b| - 1];
      assert c in b;
      assert b' + [c] == b;
      SplitTail(a, b', sep);
      var q := Split(a + b', sep);
      assert q == p[..n - 1] + [p[n - 1] + b'];
      assert (a + b)[..|a + b| - 1] == a + b';
      assert Split(a + b, sep) == q[..|q| - 1] + [q[|q| - 1] + [c]];
      assert q[..|q| - 1] == p[..n - 1];
      assert q[|q| - 1] + [c] == p[n - 1] + b;
    }
  }

  lemma SplitSep(s: string, sep: char)
    ensures Split(s + [sep], sep) == Split(s, sep) + [[]]
  {
    assert (s + [sep])[..|s|] == s;
  }

  /** Splitting parts joined by a separator they do not contain gives the parts back. */
  lemma {:induction false} JoinSplit(parts: seq<string>, sep: char)
    requires parts != [] && forall i | 0 <= i < |parts| :: sep !in parts[i]
    ensures Split(Join(parts, sep), sep) == parts
  {
    if |parts| == 1 {
      var x: string := parts[0];
      SplitTail([], x, sep);
      assert [] + x == x;
      assert Split([], sep) == [[]];
      assert Split(x, sep) == [[]][..0] + [[] + x];
      assert [[]][..0] + [[] + x] == [x] == parts;
    } else {
      var init, last := parts[..|parts| - 1], parts[|parts| - 1];
      assert forall i | 0 <= i < |init| :: init[i] == parts[i];
      JoinSplit(init, sep);
      var j := Join(init, sep);
      SplitSep(j, sep);
      SplitTail(j + [sep], last, sep);
      var q := init + [[]];
      assert q[..|q| - 1] == init && q[|q| - 1] + last == last;
      assert Split(j + [sep] + last, sep) == init + [last];
      assert j + [sep] + last == Join(parts, sep);
      InitLast(parts);
    }
  }

  lemma InitLast<T>(s: seq<T>)
    requires s != []
    ensures s[..|s| - 1] + [s[|s| - 1]] == s
  {
  }

  /**
   * The lines iterating over a text file yields: each piece between '\n's
   * with its '\n', and a final piece without one when the text does not
   * end in '\n'.
   */
  function FileLines(text: string): seq<string> {
    var p := Split(text, '\n');
    var k := |p| - 1;
    seq(k, i requires 0 <= i < k => p[i] + ['\n']) + (if p[k] == [] then [] else [p[k]])
  }

  /** `line.strip('\n')` of each file line is the piece of text between newlines. */
  lemma FileLinesStrip(text: string)
    ensures var p, lines := Split(text, '\n'), FileLines(text);
            && |lines| == (if p[|p| - 1] == [] then |p| - 1 else |p|)
            && forall i | 0 <= i < |lines| :: Strip(lines[i], IsNewline) == p[i]
  {
    var p, lines := Split(text, '\n'), FileLines(text);
    var k := |p| - 1;
    SplitNoSep(text, '\n');
    forall i | 0 <= i < |lines| ensures Strip(lines[i], IsNewline) == p[i] {
      if i < k {
        StripNewline(p[i]);
      } else {
        StripNothing(p[i], IsNewline);
      }
    }
  }

  lemma StripNewline(piece: string)
    requires '\n' !in piece
    ensures Strip(piece + ['\n'], IsNewline) == piece
  {
    var s := piece + ['\n'];
    assert s[..|s| - 1] == piece;
    if piece == [] {
      assert StripLeft(s, IsNewline) == StripLeft([], IsNewline);
    } else {
      assert s[0] == piece[0] && piece[0] in piece;
      assert StripLeft(s, IsNewline) == s;
      assert piece[|piece| - 1] in piece;
      assert StripRight(piece, IsNewline) == piece;
    }
  }

  /** `reduce(operator.add, xs)`: TypeError for an empty list, else the concatenation. */
  function Reduce<T>(xs: seq<seq<T>>): Result<seq<T>> {
    if xs == [] then Err(TypeError) else Ok(Concat(xs))
  }

  // ---------------------------------------------------------------------
  // readInput (lines 27-44)
  // ---------------------------------------------------------------------

  /** What `readInput` returns: the loci lists, or with `asLoci=False` one list of genes. */
  datatype GeneInput = Loci(loci: seq<seq<string>>) | Flat(genes: seq<string>)

  /** Lines 31-32: the rows of fields of the stripped text. */
  function Rows(text: string): seq<seq<string>> {
    var lines := Split(Strip(text, IsSpace), '\n');
    seq(|lines|, i requires 0 <= i < |lines| => Split(lines[i], '\t'))
  }

  /** Lines 35-38 for one row: a row of more than one field loses its first two. */
  function DropColumns(row: seq<string>): seq<string> {
    if |row| > 1 then row[2..] else row
  }

  function ReadInputOf(text: string, asLoci: bool): Result<GeneInput> {
    var rows := Rows(text);
    var genes := seq(|rows|, i requires 0 <= i < |rows| => DropColumns(rows[i]));
    if asLoci then Ok(Loci(genes))
    else match Reduce(genes) case Err(e) => Err(e) case Ok(flat) => Ok(Flat(flat))
  }

  method ReadInput(text: string, asLoci: bool) returns (r: Result<GeneInput>)
    ensures r == ReadInputOf(text, asLoci)
  {
    var lines := Split(Strip(text, IsSpace), '\n');
    var genes := seq(|lines|, i requires 0 <= i < |lines| => Split(lines[i], '\t'));
    ghost var rows := genes;
    for i := 0 to |genes|
      invariant |genes| == |rows|
      invariant forall j | 0 <= j < i :: genes[j] == DropColumns(rows[j])
      invariant forall j | i <= j < |genes| :: genes[j] == rows[j]
    {
      if |genes[i]| > 1 {
        genes := genes[i := genes[i][1..]];
        genes := genes[i := genes[i][1..]];
      }
    }
    assert rows == Rows(text);
    assert genes == seq(|rows|, i requires 0 <= i < |rows| => DropColumns(rows[i]));
    if !asLoci {
      if genes == [] {
        return Err(TypeError);
      }
      return Ok(Flat(Concat(genes)));
    }
    return Ok(Loci(genes));
  }

  /**
   * `readInput` never fails: the text has at least one row, so `reduce`
   * has something to add. With `asLoci` there is one list per line of the
   * stripped text: the line's tab-separated fields without the first two
   * when there are more than one, the single field otherwise. Without it
   * the result is those lists joined in order.
   */
  lemma ReadInputSpec(text: string)
    ensures ReadInputOf(text, true).Ok? && ReadInputOf(text, false).Ok?
    ensures var lines, loci := Split(Strip(text, IsSpace), '\n'), ReadInputOf(text, true).value.loci;
            && |loci| == |lines|
            && forall i | 0 <= i < |lines| ::
                 var fields := Split(lines[i], '\t');
                 && Join(fields, '\t') == lines[i]
                 && (|fields| > 1 ==> loci[i] == fields[2..])
                 && (|fields| == 1 ==> loci[i] == fields)
    ensures ReadInputOf(text, false).value.genes == Concat(ReadInputOf(text, true).value.loci)
  {
    var lines := Split(Strip(text, IsSpace), '\n');
    forall i | 0 <= i < |lines| ensures Join(Split(lines[i], '\t'), '\t') == lines[i] {
      SplitJoin(lines[i], '\t');
    }
  }

  // ---------------------------------------------------------------------
  // makeInteractionNetwork (lines 60-70)
  // ---------------------------------------------------------------------

  /** Line 65: the tab-separated fields of one line without its newline. */
  function LineFields(line: string): seq<string> {
    Split(Strip(line, IsNewline), '\t')
  }

  /** The fields of every line of the file, in order. */
  function FieldsOf(lines: seq<string>): seq<seq<string>> {
    seq(|lines|, k requires 0 <= k < |lines| => LineFields(lines[k]))
  }

  /**
   * For the lines of a text: the rows are the tab-separated fields of the
   * pieces of the text between newlines, a trailing empty piece not
   * counting as a line.
   */
  lemma FieldsOfSpec(text: string)
    ensures var p, rows := Split(text, '\n'), FieldsOf(FileLines(text));
            && |rows| == (if p[|p| - 1] == [] then |p| - 1 else |p|)
            && forall k | 0 <= k < |rows| :: rows[k] == Split(p[k], '\t')
  {
    FileLinesStrip(text);
  }

  /** Every line has exactly the three fields line 65 unpacks. */
  predicate AllTriples(rows: seq<seq<string>>) {
    forall k | 0 <= k < |rows| :: |rows[k]| == 3
  }

  lemma TriplesGrow(rows: seq<seq<string>>, w: nat)
    requires w < |rows| && AllTriples(rows[..w]) && |rows[w]| == 3
    ensures AllTriples(rows[..w + 1])
  {
    assert forall k | 0 <= k < w :: rows[..w + 1][k] == rows[..w][k];
  }

  /** Lines 66-69: `interactions[gene1][gene2] = weight`, creating the row of a new `gene1`. */
  function AddInteraction(net: Net<string>, g1: Gene, g2: Gene, w: string): Net<string> {
    if g1 in net.adj then Net(net.nodes, net.adj[g1 := net.adj[g1][g2 := w]])
    else Net(net.nodes + [g1], net.adj[g1 := map[g2 := w]])
  }

  function BuildInteractions(rows: seq<seq<string>>): Net<string>
    requires AllTriples(rows)
  {
    if rows == [] then Net([], map[])
    else
      var f := rows[|rows| - 1];
      AddInteraction(BuildInteractions(rows[..|rows| - 1]), f[0], f[1], f[2])
  }

  /** What `makeInteractionNetwork` returns: ValueError if a line does not have exactly three fields. */
  function InteractionsOf(lines: seq<string>): Result<Net<string>> {
    var rows := FieldsOf(lines);
    if !AllTriples(rows) then Err(ValueError) else Ok(BuildInteractions(rows))
  }

  method MakeInteractionNetwork(lines: seq<string>) returns (r: Result<Net<string>>)
    ensures r == InteractionsOf(lines)
  {
    ghost var rows := FieldsOf(lines);
    var interactions := Net([], map[]);
    for w := 0 to |lines|
      invariant AllTriples(rows[..w])
      invariant interactions == BuildInteractions(rows[..w])
    {
      var fields := LineFields(lines[w]);
      assert fields == rows[w];
      if |fields| != 3 {
        return Err(ValueError);
      }
      var gene1, gene2, weight := fields[0], fields[1], fields[2];
      if gene1 in interactions.adj {
        interactions := Net(interactions.nodes, interactions.adj[gene1 := interactions.adj[gene1][gene2 := weight]]);
      } else {
        interactions := Net(interactions.nodes + [gene1], interactions.adj[gene1 := map[gene2 := weight]]);
      }
      assert rows[..w + 1][..w] == rows[..w];
      TriplesGrow(rows, w);
    }
    assert rows[..|lines|] == rows;
    r := Ok(interactions);
  }

  /** The row of fields sets `g1 -> g2`. */
  predicate SetsPair(row: seq<string>, g1: Gene, g2: Gene) {
    |row| == 3 && row[0] == g1 && row[1] == g2
  }

  /** The last line that sets `g1 -> g2`. */
  function LastPair(rows: seq<seq<string>>, g1: Gene, g2: Gene): (r: Option<nat>)
    ensures r.Some? ==> r.value < |rows| && SetsPair(rows[r.value], g1, g2)
    ensures r.Some? ==> forall k | r.value < k < |rows| :: !SetsPair(rows[k], g1, g2)
    ensures r.None? ==> forall k | 0 <= k < |rows| :: !SetsPair(rows[k], g1, g2)
  {
    if rows == [] then None
    else if SetsPair(rows[|rows| - 1], g1, g2) then Some(|rows| - 1)
    else LastPair(rows[..|rows| - 1], g1, g2)
  }

  /** The interactions are a valid dict: each first gene once, in the order of first appearance. */
  lemma {:induction false} InteractionsValid(rows: seq<seq<string>>)
    requires AllTriples(rows)
    ensures Valid(BuildInteractions(rows))
    ensures BuildInteractions(rows).nodes == Dedup(seq(|rows|, k requires 0 <= k < |rows| => rows[k][0]))
  {
    if rows != [] {
      var init := rows[..|rows| - 1];
      InteractionsValid(init);
      var net := BuildInteractions(init);
      var f := rows[|rows| - 1];
      var firsts := seq(|rows|, k requires 0 <= k < |rows| => rows[k][0]);
      assert firsts[..|init|] == seq(|init|, k requires 0 <= k < |init| => init[k][0]);
      assert firsts == firsts[..|init|] + [f[0]];
      DedupSnoc(firsts[..|init|], f[0]);
      if f[0] !in net.adj {
        assert f[0] !in net.nodes;
        assert Distinct(net.nodes + [f[0]]);
      }
    }
  }

  /** The keys are the genes that start a line. */
  lemma {:induction false} InteractionKeys(rows: seq<seq<string>>, g1: Gene)
    requires AllTriples(rows)
    ensures g1 in BuildInteractions(rows).adj <==> exists k | 0 <= k < |rows| :: rows[k][0] == g1
  {
    if rows != [] {
      var init := rows[..|rows| - 1];
      assert forall k | 0 <= k < |init| :: init[k] == rows[k];
      InteractionKeys(init, g1);
      if exists k | 0 <= k < |rows| :: rows[k][0] == g1 {
        var k :| 0 <= k < |rows| && rows[k][0] == g1;
        if k < |init| {
          assert init[k][0] == g1;
        }
      }
    }
  }

  /**
   * `g1 -> g2` is present exactly when some line sets it, and its weight
   * is the raw third field of the last such line.
   */
  lemma {:induction false} InteractionPair(rows: seq<seq<string>>, g1: Gene, g2: Gene)
    requires AllTriples(rows)
    ensures var adj, last := BuildInteractions(rows).adj, LastPair(rows, g1, g2);
            && (g1 in adj && g2 in adj[g1] <==> last.Some?)
            && (last.Some? ==> adj[g1][g2] == rows[last.value][2])
  {
    if rows != [] {
      var init := rows[..|rows| - 1];
      InteractionPair(init, g1, g2);
    }
  }

  /**
   * ValueError exactly when some line does not have three fields.
   * Otherwise the keys are the genes that start a line, and `g1 -> g2` is
   * present, with the last such line's weight, exactly when some line
   * sets it.
   */
  lemma InteractionsSpec(lines: seq<string>, g1: Gene, g2: Gene)
    ensures var rows, r := FieldsOf(lines), InteractionsOf(lines);
            (r.Err? <==> exists k | 0 <= k < |rows| :: |rows[k]| != 3) &&
            (r.Err? ==> r.error == ValueError)
    ensures var rows, r := FieldsOf(lines), InteractionsOf(lines);
            r.Ok? ==>
              && Valid(r.value)
              && (g1 in r.value.adj <==> exists k | 0 <= k < |rows| :: rows[k][0] == g1)
              && (g1 in r.value.adj && g2 in r.value.adj[g1] <==> exists k | 0 <= k < |rows| :: SetsPair(rows[k], g1, g2))
              && (g1 in r.value.adj && g2 in r.value.adj[g1] ==> r.value.adj[g1][g2] == rows[LastPair(rows, g1, g2).value][2])
  {
    var rows := FieldsOf(lines);
    if AllTriples(rows) {
      InteractionsValid(rows);
      InteractionKeys(rows, g1);
      InteractionPair(rows, g1, g2);
    }
  }

  /**
   * The stored direction only: a file whose one line is `a\tb\tw` gives
   * `a -> b` and no key `b` at all.
   */
  lemma OneDirectionOnly(a: Gene, b: Gene, w: string)
    requires '\t' !in a && '\t' !in b && '\t' !in w && a != b
    requires '\n' !in a && '\n' !in b && '\n' !in w
    ensures var r := InteractionsOf(FileLines(a + ['\t'] + b + ['\t'] + w));
            r.Ok? && a in r.value.adj && b in r.value.adj[a] && b !in r.value.adj
  {
    var line := a + ['\t'] + b + ['\t'] + w;
    SingleLine(line);
    StripNothing(line, IsNewline);
    TabFields(a, b, w);
    assert FieldsOf([line]) == [[a, b, w]];
    assert [[a, b, w]][..0] == [];
    assert BuildInteractions([[a, b, w]]) == AddInteraction(Net([], map[]), a, b, w);
  }

  /** A text of one non-empty line without a newline is that line. */
  lemma SingleLine(line: string)
    requires '\n' !in line && line != []
    ensures FileLines(line) == [line]
  {
    SplitTail([], line, '\n');
    assert [] + line == line;
    assert Split([], '\n') == [[]];
    assert Split(line, '\n') == [line];
  }

  /** The fields of `a\tb\tw`. */
  lemma TabFields(a: string, b: string, w: string)
    requires '\t' !in a && '\t' !in b && '\t' !in w
    ensures Split(a + ['\t'] + b + ['\t'] + w, '\t') == [a, b, w]
  {
    JoinSplit([a, b, w], '\t');
    assert [a, b, w][..2] == [a, b] && [a, b][..1] == [a];
    assert Join([a, b], '\t') == a + ['\t'] + b;
  }

  // ---------------------------------------------------------------------
  // makeNetwork (lines 76-89)
  // ---------------------------------------------------------------------

  /** The row of `gene1` (lines 81-88): its edges to the listed genes, or `{}` when it has no entry. */
  function RestrictRow<W>(inter: Net<W>, g1: Gene, keys: set<Gene>): map<Gene, W> {
    if g1 in inter.adj then Row(inter.adj, g1, keys) else map[]
  }

  /** The rows of the genes assigned so far. */
  function RestrictAll<W>(prefix: seq<Gene>, inter: Net<W>, keys: set<Gene>): map<Gene, map<Gene, W>> {
    map g1 | g1 in prefix :: RestrictRow(inter, g1, keys)
  }

  lemma RestrictAllSnoc<W>(prefix: seq<Gene>, g: Gene, inter: Net<W>, keys: set<Gene>)
    ensures RestrictAll(prefix + [g], inter, keys) == RestrictAll(prefix, inter, keys)[g := RestrictRow(inter, g, keys)]
  {
  }

  /** What `makeNetwork` returns: TypeError for no loci (line 78). */
  function NetworkOf<W>(genes: seq<seq<Gene>>, inter: Net<W>): Result<Net<W>> {
    match Reduce(genes)
    case Err(e) => Err(e)
    case Ok(flat) => Ok(Net(Dedup(flat), RestrictAll(flat, inter, SetOf(flat))))
  }

  /** The inner loop of lines 83-88. */
  method FillRow<W>(flat: seq<Gene>, edges: map<Gene, W>) returns (row: map<Gene, W>)
    ensures row == map g2 | g2 in flat && g2 in edges :: edges[g2]
  {
    row := map[];
    for j := 0 to |flat|
      invariant row == map g2 | g2 in flat[..j] && g2 in edges :: edges[g2]
    {
      var gene2 := flat[j];
      PrefixSnoc(flat, j);
      if gene2 in edges {
        if gene2 in flat {
          row := row[gene2 := edges[gene2]];
        }
      }
    }
    assert flat[..|flat|] == flat;
  }

  /** Lines 81-88 for one gene: its restricted row, `{}` when the interactions have no entry for it. */
  method GeneRow<W>(flat: seq<Gene>, interactionsNetwork: Net<W>, gene1: Gene) returns (row: map<Gene, W>)
    ensures row == RestrictRow(interactionsNetwork, gene1, SetOf(flat))
  {
    row := map[];
    if gene1 in interactionsNetwork.adj {
      row := FillRow(flat, interactionsNetwork.adj[gene1]);
    }
  }

  method MakeNetwork<W>(genes: seq<seq<Gene>>, interactionsNetwork: Net<W>) returns (r: Result<Net<W>>)
    ensures r == NetworkOf(genes, interactionsNetwork)
  {
    if genes == [] {
      return Err(TypeError);
    }
    var flat := Concat(genes);
    var net := RestrictTo(flat, interactionsNetwork);
    r := Ok(net);
  }

  method RestrictTo<W>(flat: seq<Gene>, interactionsNetwork: Net<W>) returns (net: Net<W>)
    ensures net == Net(Dedup(flat), RestrictAll(flat, interactionsNetwork, SetOf(flat)))
  {
    var nodes: seq<Gene> := [];
    var adj: map<Gene, map<Gene, W>> := map[];
    for i := 0 to |flat|
      invariant nodes == Dedup(flat[..i])
      invariant adj == RestrictAll(flat[..i], interactionsNetwork, SetOf(flat))
    {
      var gene1 := flat[i];
      PrefixSnoc(flat, i);
      DedupSnoc(flat[..i], gene1);
      RestrictAllSnoc(flat[..i], gene1, interactionsNetwork, SetOf(flat));
      nodes := Touch(nodes, gene1);
      adj := adj[gene1 := map[]];
      var row := GeneRow(flat, interactionsNetwork, gene1);
      adj := adj[gene1 := row];
    }
    assert flat[..|flat|] == flat;
    net := Net(nodes, adj);
  }

  /**
   * TypeError exactly for an empty list of loci. Otherwise the network's
   * keys are exactly the genes of the loci, each once; a gene without an
   * entry in the interactions has no edges; and `g1 -> g2` is present,
   * with the weight copied, exactly when both are loci genes and the
   * interactions hold `g1 -> g2`.
   */
  lemma NetworkSpec<W>(genes: seq<seq<Gene>>, inter: Net<W>, g1: Gene, g2: Gene)
    ensures NetworkOf(genes, inter).Err? <==> genes == []
    ensures NetworkOf(genes, inter).Err? ==> NetworkOf(genes, inter).error == TypeError
    ensures var r := NetworkOf(genes, inter);
            r.Ok? ==>
              && Valid(r.value)
              && (g1 in r.value.adj <==> exists i | 0 <= i < |genes| :: g1 in genes[i])
              && (g1 in r.value.adj && g1 !in inter.adj ==> r.value.adj[g1] == map[])
              && (g1 in r.value.adj ==>
                    (g2 in r.value.adj[g1] <==> g2 in r.value.adj && g1 in inter.adj && g2 in inter.adj[g1]) &&
                    (g2 in r.value.adj[g1] ==> r.value.adj[g1][g2] == inter.adj[g1][g2]))
  {
    if genes != [] {
      var flat := Concat(genes);
      DedupKeys(flat);
      ConcatMember(genes, g1);
      ConcatMember(genes, g2);
      var r := NetworkOf(genes, inter).value;
      assert forall g | g in r.adj :: g in SetOf(r.nodes);
    }
  }

  /** Restricting a symmetric interaction network gives a symmetric one. */
  lemma NetworkSymmetric<W>(genes: seq<seq<Gene>>, inter: Net<W>)
    requires Symmetric(inter.adj)
    ensures NetworkOf(genes, inter).Ok? ==> Symmetric(NetworkOf(genes, inter).value.adj)
  {
    if genes != [] {
      var adj := NetworkOf(genes, inter).value.adj;
      forall a, b | a in adj && b in adj[a]
        ensures b in adj && a in adj[b] && adj[b][a] == adj[a][b]
      {
        assert a in inter.adj && b in inter.adj[a];
      }
    }
  }
}
