/**
 * The CSV serialiser of the arena (src/export.rs): one label table with a
 * header and one row per node, and one edge table with one row per node
 * listing its distinct neighbours.  The order of the neighbours within a
 * row is the iteration order of a hash set, which is unspecified; the
 * model chooses it nondeterministically.
 */
module CsvExport {
  import opened Labels
  import opened GraphArena

  // ---------------------------------------------------------------------
  // Decimal numerals
  // ---------------------------------------------------------------------

  predicate IsDigit(c: char) { '0' <= c <= '9' }

  function Digit(d: nat): (c: char)
    requires d < 10
    ensures IsDigit(c) && c as int - '0' as int == d
  {
    (d + '0' as int) as char
  }

  /** The `Display` form of an unsigned integer: its decimal digits, without leading zeros. */
  function Decimal(n: nat): (s: string)
    ensures 1 <= |s| && (n != 0 ==> s[0] != '0')
    decreases n
  {
    if n < 10 then [Digit(n)] else Decimal(n / 10) + [Digit(n % 10)]
  }

  predicate AllDigits(s: string)
  {
    forall k :: 0 <= k < |s| ==> IsDigit(s[k])
  }

  lemma {:induction false} DecimalDigits(n: nat)
    ensures AllDigits(Decimal(n))
    decreases n
  {
    if n >= 10 {
      DecimalDigits(n / 10);
    }
  }

  /** The value of a decimal digit; other characters count as zero. */
  function DigitValue(c: char): (d: nat)
    ensures d < 10
  {
    if IsDigit(c) then c as int - '0' as int else 0
  }

  /** The value of a string of decimal digits. */
  function ParseDecimal(s: string): (n: nat)
  {
    if s == [] then 0 else 10 * ParseDecimal(s[..|s| - 1]) + DigitValue(s[|s| - 1])
  }

  lemma {:induction false} DecimalRoundTrip(n: nat)
    ensures ParseDecimal(Decimal(n)) == n
    decreases n
  {
    if n >= 10 {
      var s := Decimal(n);
      assert s[..|s| - 1] == Decimal(n / 10);
      DecimalRoundTrip(n / 10);
    }
  }

  /** Distinct numbers are written differently. */
  lemma DecimalInjective(m: nat, n: nat)
    requires Decimal(m) == Decimal(n)
    ensures m == n
  {
    DecimalRoundTrip(m);
    DecimalRoundTrip(n);
  }

  // ---------------------------------------------------------------------
  // Newline-terminated rows
  // ---------------------------------------------------------------------

  predicate NoNewline(s: string) { forall k :: 0 <= k < |s| ==> s[k] != '\n' }

  /** A row and its terminating newline. */
  function Line(row: string): (s: string)
  {
    row + "\n"
  }

  /** The rows, each followed by a newline. */
  function Join(rows: seq<string>): (s: string)
  {
    if rows == [] then [] else Line(rows[0]) + Join(rows[1..])
  }

  lemma Assoc(a: string, b: string, c: string)
    ensures (a + b) + c == a + (b + c)
  {
  }

  /** The first newline of `s` at or after `k`, or `|s|`. */
  function NewlineFrom(s: string, k: nat): (i: nat)
    requires k <= |s|
    ensures k <= i <= |s| && (i < |s| ==> s[i] == '\n') && NoNewline(s[k..i])
    decreases |s| - k
  {
    if k == |s| || s[k] == '\n' then k else NewlineFrom(s, k + 1)
  }

  /** The rows of a text, each ending at a newline; text after the last newline is a last row. */
  function Split(s: string): (rows: seq<string>)
    decreases |s|
  {
    if s == [] then []
    else
      var i := NewlineFrom(s, 0);
      if i == |s| then [s] else [s[..i]] + Split(s[i + 1..])
  }

  lemma {:induction false} JoinSnoc(rows: seq<string>, r: string)
    ensures Join(rows + [r]) == Join(rows) + Line(r)
  {
    if rows != [] {
      assert (rows + [r])[1..] == rows[1..] + [r];
      JoinSnoc(rows[1..], r);
      Assoc(Line(rows[0]), Join(rows[1..]), Line(r));
    } else {
      assert rows + [r] == [r];
      assert Join([r]) == Line(r) + Join([]);
    }
  }

  lemma NewlineAfter(r: string, t: string, k: nat)
    requires NoNewline(r) && k <= |r|
    ensures NewlineFrom(Line(r) + t, k) == |r|
    decreases |r| - k
  {
    if k < |r| {
      NewlineAfter(r, t, k + 1);
    }
  }

  /** Splitting the joined rows gives the rows back, when none holds a newline. */
  lemma {:induction false} SplitJoin(rows: seq<string>)
    requires forall k :: 0 <= k < |rows| ==> NoNewline(rows[k])
    ensures Split(Join(rows)) == rows
  {
    if rows != [] {
      var s := Join(rows);
      NewlineAfter(rows[0], Join(rows[1..]), 0);
      assert s == Line(rows[0]) + Join(rows[1..]);
      assert s[..|rows[0]|] == rows[0];
      assert s[|rows[0]| + 1..] == Join(rows[1..]);
      SplitJoin(rows[1..]);
    }
  }

  // ---------------------------------------------------------------------
  // The two tables
  // ---------------------------------------------------------------------

  const LabelHeader: string := "Id,Label,Color"

  /** The label column and display colour of a node label. */
  function LabelFields(l: Label): (s: string)
    ensures NoNewline(s)
  {
    match l
    case False => "FALSE,#FF0000"
    case True => "TRUE,#00FF00"
    case Neutral => "NEUTRAL,#0000FF"
    case Null => "NULL,#555555"
  }

  function LabelRow(i: nat, l: Label): (s: string)
  {
    Decimal(i) + "," + LabelFields(l)
  }

  /** The rows of the label table after its header, one per node. */
  function LabelRows(nodes: seq<Node>): (rows: seq<string>)
    ensures |rows| == |nodes|
  {
    if nodes == [] then [] else LabelRows(nodes[..|nodes| - 1]) + [LabelRow(|nodes| - 1, nodes[|nodes| - 1].colour)]
  }

  /** `;` and the index of each neighbour, in the given order. */
  function Neighbours(order: seq<nat>): (s: string)
  {
    if order == [] then [] else Neighbours(order[..|order| - 1]) + ";" + Decimal(order[|order| - 1])
  }

  function EdgeRow(i: nat, order: seq<nat>): (s: string)
  {
    Decimal(i) + Neighbours(order)
  }

  /** The edge table, row `i` listing the neighbours of node `i` in the order `orders[i]`. */
  function EdgeRows(orders: seq<seq<nat>>): (rows: seq<string>)
    ensures |rows| == |orders|
  {
    if orders == [] then [] else EdgeRows(orders[..|orders| - 1]) + [EdgeRow(|orders| - 1, orders[|orders| - 1])]
  }

  function Members(order: seq<nat>): (s: set<nat>)
    ensures forall x :: x in s <==> x in order
  {
    set x | x in order
  }

  /** `order` lists every member of `connections` once and nothing else. */
  ghost predicate Enumerates(order: seq<nat>, connections: seq<nat>)
  {
    (forall x :: x in order <==> x in connections) &&
    (forall j, k :: 0 <= j < k < |order| ==> order[j] != order[k])
  }

  /** The label row of node `i`, as the match in `export_as_csv` writes it. */
  method LabelLine(i: nat, colour: Label) returns (row: string)
    ensures row == LabelRow(i, colour)
  {
    row := Decimal(i) + ",";
    match colour {
      case False => row := row + "FALSE,#FF0000";
      case True => row := row + "TRUE,#00FF00";
      case Neutral => row := row + "NEUTRAL,#0000FF";
      case Null => row := row + "NULL,#555555";
    }
  }

  lemma EdgeRowSnoc(i: nat, order: seq<nat>, x: nat)
    ensures EdgeRow(i, order + [x]) == EdgeRow(i, order) + ";" + Decimal(x)
  {
    assert (order + [x])[..|order|] == order;
  }

  /** The edge row of node `i`: its index, then `;` and each distinct neighbour in hash-set order. */
  method EdgeLine(i: nat, connections: seq<nat>) returns (line: string, ghost order: seq<nat>)
    ensures line == EdgeRow(i, order) && Enumerates(order, connections)
  {
    var neighbours := Members(connections);
    line := Decimal(i);
    var rest := neighbours;
    order := [];
    while rest != {}
      invariant rest <= neighbours
      invariant forall x :: x in order <==> x in neighbours && x !in rest
      invariant forall j, k :: 0 <= j < k < |order| ==> order[j] != order[k]
      invariant line == EdgeRow(i, order)
      decreases |rest|
    {
      var x :| x in rest;
      EdgeRowSnoc(i, order, x);
      line := line + ";" + Decimal(x);
      order := order + [x];
      rest := rest - {x};
    }
  }

  /**
   * `export_as_csv`: appends the label table and the edge table of `nodes`
   * to the two buffers; `orders[i]` is the order the hash set of node `i`'s
   * neighbours happened to yield.
   */
  method ExportAsCsv(nodes: seq<Node>, bufEdges: string, bufLabels: string)
    returns (edges: string, labels: string, ghost orders: seq<seq<nat>>)
    ensures labels == bufLabels + LabelTable(nodes)
    ensures |orders| == |nodes| && forall i :: 0 <= i < |nodes| ==> Enumerates(orders[i], nodes[i].connections)
    ensures edges == bufEdges + EdgeTable(orders)
  {
    labels := bufLabels + Line(LabelHeader);
    edges := bufEdges;
    orders := [];
    for i := 0 to |nodes|
      invariant labels == bufLabels + LabelTable(nodes[..i])
      invariant |orders| == i && forall j :: 0 <= j < i ==> Enumerates(orders[j], nodes[j].connections)
      invariant edges == bufEdges + EdgeTable(orders)
    {
      var row := LabelLine(i, nodes[i].colour);
      LabelTableSnoc(nodes, i, bufLabels);
      labels := labels + Line(row);
      var line, order := EdgeLine(i, nodes[i].connections);
      EdgeTableSnoc(orders, order, bufEdges);
      EnumeratesSnoc(nodes, orders, order);
      edges := edges + Line(line);
      orders := orders + [order];
    }
    assert nodes[..|nodes|] == nodes;
  }

  lemma EnumeratesSnoc(nodes: seq<Node>, orders: seq<seq<nat>>, order: seq<nat>)
    requires |orders| < |nodes| && forall j :: 0 <= j < |orders| ==> Enumerates(orders[j], nodes[j].connections)
    requires Enumerates(order, nodes[|orders|].connections)
    ensures forall j :: 0 <= j < |orders| + 1 ==> Enumerates((orders + [order])[j], nodes[j].connections)
  {
    forall j | 0 <= j < |orders| + 1 ensures Enumerates((orders + [order])[j], nodes[j].connections) {
      if j < |orders| {
        assert (orders + [order])[j] == orders[j];
      }
    }
  }

  lemma LabelTableSnoc(nodes: seq<Node>, i: nat, buf: string)
    requires i < |nodes|
    ensures buf + LabelTable(nodes[..i + 1]) == (buf + LabelTable(nodes[..i])) + Line(LabelRow(i, nodes[i].colour))
  {
    assert nodes[..i + 1][..i] == nodes[..i];
    Assoc(buf, LabelTable(nodes[..i]), Line(LabelRow(i, nodes[i].colour)));
  }

  lemma EdgeTableSnoc(orders: seq<seq<nat>>, order: seq<nat>, buf: string)
    ensures buf + EdgeTable(orders + [order]) == (buf + EdgeTable(orders)) + Line(EdgeRow(|orders|, order))
  {
    assert (orders + [order])[..|orders|] == orders;
    Assoc(buf, EdgeTable(orders), Line(EdgeRow(|orders|, order)));
  }

  /** The header and the label rows, each newline-terminated. */
  function LabelTable(nodes: seq<Node>): (s: string)
  {
    if nodes == [] then Line(LabelHeader)
    else LabelTable(nodes[..|nodes| - 1]) + Line(LabelRow(|nodes| - 1, nodes[|nodes| - 1].colour))
  }

  /** The edge rows, each newline-terminated. */
  function EdgeTable(orders: seq<seq<nat>>): (s: string)
  {
    if orders == [] then []
    else EdgeTable(orders[..|orders| - 1]) + Line(EdgeRow(|orders| - 1, orders[|orders| - 1]))
  }

  lemma {:induction false} LabelTableJoin(nodes: seq<Node>)
    ensures LabelTable(nodes) == Join([LabelHeader] + LabelRows(nodes))
  {
    if nodes == [] {
      assert [LabelHeader] + LabelRows(nodes) == [LabelHeader];
      assert Join([LabelHeader]) == Line(LabelHeader) + Join([]);
    } else {
      var init := nodes[..|nodes| - 1];
      var row := LabelRow(|nodes| - 1, nodes[|nodes| - 1].colour);
      LabelTableJoin(init);
      assert [LabelHeader] + LabelRows(nodes) == ([LabelHeader] + LabelRows(init)) + [row];
      JoinSnoc([LabelHeader] + LabelRows(init), row);
    }
  }

  lemma {:induction false} EdgeTableJoin(orders: seq<seq<nat>>)
    ensures EdgeTable(orders) == Join(EdgeRows(orders))
  {
    if orders != [] {
      var init := orders[..|orders| - 1];
      EdgeTableJoin(init);
      JoinSnoc(EdgeRows(init), EdgeRow(|orders| - 1, orders[|orders| - 1]));
    }
  }

  lemma HeaderNoNewline()
    ensures NoNewline(LabelHeader)
  {
  }

  lemma LabelRowsNoNewline(nodes: seq<Node>)
    ensures forall k :: 0 <= k < |nodes| ==> NoNewline(LabelRows(nodes)[k])
  {
    forall k | 0 <= k < |nodes| ensures NoNewline(LabelRows(nodes)[k]) {
      LabelRowsAt(nodes, k);
      LabelRowNoNewline(k, nodes[k].colour);
    }
  }

  lemma {:induction false} LabelRowsAt(nodes: seq<Node>, i: nat)
    requires i < |nodes|
    ensures LabelRows(nodes)[i] == LabelRow(i, nodes[i].colour)
  {
    var init := nodes[..|nodes| - 1];
    if i < |init| {
      LabelRowsAt(init, i);
      assert init[i] == nodes[i];
    }
  }

  lemma {:induction false} EdgeRowsAt(orders: seq<seq<nat>>, i: nat)
    requires i < |orders|
    ensures EdgeRows(orders)[i] == EdgeRow(i, orders[i])
  {
    var init := orders[..|orders| - 1];
    if i < |init| {
      EdgeRowsAt(init, i);
      assert init[i] == orders[i];
    }
  }

  // ---------------------------------------------------------------------
  // What the tables say
  // ---------------------------------------------------------------------

  lemma NoNewlineConcat(a: string, b: string)
    requires NoNewline(a) && NoNewline(b)
    ensures NoNewline(a + b)
  {
  }

  lemma DecimalNoNewline(n: nat)
    ensures NoNewline(Decimal(n))
  {
    DecimalDigits(n);
  }

  lemma {:induction false} NeighboursNoNewline(order: seq<nat>)
    ensures NoNewline(Neighbours(order))
  {
    if order != [] {
      var init := order[..|order| - 1];
      NeighboursNoNewline(init);
      DecimalNoNewline(order[|order| - 1]);
      NoNewlineConcat(Neighbours(init), ";");
      NoNewlineConcat(Neighbours(init) + ";", Decimal(order[|order| - 1]));
    }
  }

  lemma LabelRowNoNewline(i: nat, l: Label)
    ensures NoNewline(LabelRow(i, l))
  {
    DecimalNoNewline(i);
    NoNewlineConcat(Decimal(i), ",");
    NoNewlineConcat(Decimal(i) + ",", LabelFields(l));
  }

  lemma EdgeRowNoNewline(i: nat, order: seq<nat>)
    ensures NoNewline(EdgeRow(i, order))
  {
    DecimalNoNewline(i);
    NeighboursNoNewline(order);
    NoNewlineConcat(Decimal(i), Neighbours(order));
  }

  lemma LabelLinesNoNewline(nodes: seq<Node>)
    ensures var rows := [LabelHeader] + LabelRows(nodes);
      forall k :: 0 <= k < |rows| ==> NoNewline(rows[k])
  {
    var rows := [LabelHeader] + LabelRows(nodes);
    forall k | 0 <= k < |rows| ensures NoNewline(rows[k]) {
      if k == 0 {
        HeaderNoNewline();
      } else {
        LabelRowsAt(nodes, k - 1);
        LabelRowNoNewline(k - 1, nodes[k - 1].colour);
      }
    }
  }

  /**
   * The label buffer gains the header and then exactly one row per node,
   * in index order: the node's index, its label and its display colour.
   */
  lemma LabelTableRows(nodes: seq<Node>)
    ensures Split(LabelTable(nodes)) == [LabelHeader] + LabelRows(nodes)
    ensures forall i :: 0 <= i < |nodes| ==> LabelRows(nodes)[i] == LabelRow(i, nodes[i].colour)
  {
    LabelLinesNoNewline(nodes);
    SplitJoin([LabelHeader] + LabelRows(nodes));
    LabelTableJoin(nodes);
    forall i | 0 <= i < |nodes| ensures LabelRows(nodes)[i] == LabelRow(i, nodes[i].colour) {
      LabelRowsAt(nodes, i);
    }
  }

  /** The edge buffer gains exactly one row per node, in index order, each starting with the node's index. */
  lemma EdgeTableRows(orders: seq<seq<nat>>)
    ensures Split(EdgeTable(orders)) == EdgeRows(orders)
    ensures forall i :: 0 <= i < |orders| ==> EdgeRows(orders)[i] == EdgeRow(i, orders[i])
  {
    var rows := EdgeRows(orders);
    forall k | 0 <= k < |rows| ensures NoNewline(rows[k]) {
      EdgeRowsAt(orders, k);
      EdgeRowNoNewline(k, orders[k]);
    }
    SplitJoin(rows);
    EdgeTableJoin(orders);
    forall i | 0 <= i < |orders| ensures EdgeRows(orders)[i] == EdgeRow(i, orders[i]) {
      EdgeRowsAt(orders, i);
    }
  }

  function CountOf(c: char, s: string): (n: nat)
    ensures n <= |s|
  {
    if s == [] then 0 else CountOf(c, s[..|s| - 1]) + (if s[|s| - 1] == c then 1 else 0)
  }

  lemma {:induction false} CountOfConcat(c: char, a: string, b: string)
    ensures CountOf(c, a + b) == CountOf(c, a) + CountOf(c, b)
    decreases |b|
  {
    if b != [] {
      var ab := a + b;
      assert ab[..|ab| - 1] == a + b[..|b| - 1];
      assert ab[|ab| - 1] == b[|b| - 1];
      CountOfConcat(c, a, b[..|b| - 1]);
      assert CountOf(c, ab) == CountOf(c, a + b[..|b| - 1]) + (if b[|b| - 1] == c then 1 else 0);
    } else {
      assert a + b == a;
    }
  }

  lemma {:induction false} CountOfDigits(s: string)
    requires AllDigits(s)
    ensures CountOf(';', s) == 0
  {
    if s != [] {
      CountOfDigits(s[..|s| - 1]);
    }
  }

  lemma {:induction false} DistinctCard(order: seq<nat>)
    requires forall j, k :: 0 <= j < k < |order| ==> order[j] != order[k]
    ensures |Members(order)| == |order|
  {
    if order != [] {
      var init := order[..|order| - 1];
      DistinctCard(init);
      var last := order[|order| - 1];
      assert forall j :: 0 <= j < |init| ==> init[j] == order[j] && order[j] != last;
      assert last !in init;
      var whole, front := Members(order), Members(init);
      assert order == init + [last];
      assert whole == front + {last};
      assert last !in front;
      assert |whole| == |front| + 1;
    } else {
      assert Members(order) == {};
    }
  }

  /** Each row holds one `;`-prefixed field per distinct neighbour: duplicate edges are written once. */
  lemma {:induction false} EdgeRowFields(i: nat, order: seq<nat>, connections: seq<nat>)
    requires Enumerates(order, connections)
    ensures CountOf(';', EdgeRow(i, order)) == |Members(connections)|
  {
    NeighboursSemicolons(order);
    DecimalDigits(i);
    CountOfDigits(Decimal(i));
    CountOfConcat(';', Decimal(i), Neighbours(order));
    DistinctCard(order);
    assert Members(order) == Members(connections);
  }

  lemma {:induction false} NeighboursSemicolons(order: seq<nat>)
    ensures CountOf(';', Neighbours(order)) == |order|
  {
    if order != [] {
      var init := order[..|order| - 1];
      NeighboursSemicolons(init);
      DecimalDigits(order[|order| - 1]);
      CountOfDigits(Decimal(order[|order| - 1]));
      CountOfConcat(';', Neighbours(init), ";");
      CountOfConcat(';', Neighbours(init) + ";", Decimal(order[|order| - 1]));
    }
  }
}
