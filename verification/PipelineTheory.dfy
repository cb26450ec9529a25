/** Pass pipelines, their text, and the state of the parser. */
module PipelineTheory {
  import opened Options

  /** A pass, or a pass manager with the pipeline that it runs. */
  datatype Item = Pass(name: string) | Manager(kind: string, items: seq<Item>)

  /** Nonempty, and free of commas and parentheses. */
  predicate IsName(s: string) {
    s != "" && forall c <- s :: c != ',' && c != '(' && c != ')'
  }

  predicate ItemOk(x: Item) {
    match x
    case Pass(name) => IsName(name)
    case Manager(kind, items) => IsName(kind) && AllOk(items)
  }

  predicate AllOk(items: seq<Item>) {
    forall x <- items :: ItemOk(x)
  }

  function ToStr(items: seq<Item>): string {
    if items == [] then "" else
      var n := |items| - 1;
      (if n == 0 then "" else ToStr(items[..n]) + ",") + ItemStr(items[n])
  }

  function ItemStr(x: Item): string {
    match x
    case Pass(name) => name
    case Manager(kind, items) => kind + "(" + ToStr(items) + ")"
  }

  // ---------------------------------------------------------------------------------------------
  // Passes
  // ---------------------------------------------------------------------------------------------

  /** A pass with the kinds of the pass managers that it runs in, the outermost first. */
  datatype PlacedPass = PlacedPass(managers: seq<string>, name: string)

  function Under(kind: string, passes: seq<PlacedPass>): (r: seq<PlacedPass>)
    ensures |r| == |passes|
  {
    seq(|passes|, i requires 0 <= i < |passes| => PlacedPass([kind] + passes[i].managers, passes[i].name))
  }

  /** The passes in the order in which they are run. */
  function Passes(items: seq<Item>): seq<PlacedPass> {
    if items == [] then [] else
      var n := |items| - 1;
      Passes(items[..n]) + ItemPasses(items[n])
  }

  function ItemPasses(x: Item): seq<PlacedPass> {
    match x
    case Pass(name) => [PlacedPass([], name)]
    case Manager(kind, items) => Under(kind, Passes(items))
  }

  lemma PassesStep(items: seq<Item>, i: nat)
    requires i < |items|
    ensures Passes(items[..i + 1]) == Passes(items[..i]) + ItemPasses(items[i])
  {
    assert items[..i + 1][..i] == items[..i];
  }

  lemma PassesAppend(items: seq<Item>, x: Item)
    ensures Passes(items + [x]) == Passes(items) + ItemPasses(x)
  {
    assert (items + [x])[..|items + [x]| - 1] == items;
  }

  lemma PassesOfOne(x: Item)
    ensures Passes([x]) == ItemPasses(x)
  {
    PassesAppend([], x);
    assert [] + [x] == [x];
  }

  lemma PassesOfLonger(s: seq<Item>, i: nat, t: seq<Item>, j: nat, before: seq<PlacedPass>)
    requires 0 < i <= |s| && 0 < j <= |t| && s[i - 1] == t[j - 1]
    requires Passes(s[..i - 1]) == before + Passes(t[..j - 1])
    ensures Passes(s[..i]) == before + Passes(t[..j])
  {
    PassesStep(s, i - 1);
    PassesStep(t, j - 1);
  }

  lemma {:induction false} PassesOfPrefix(a: seq<Item>, b: seq<Item>, sum: seq<Item>, k: nat)
    requires sum == a + b && k <= |b|
    ensures Passes(sum[..|a| + k]) == Passes(a) + Passes(b[..k])
  {
    if k == 0 {
      assert sum[..|a|] == a && b[..0] == [];
    } else {
      PassesOfPrefix(a, b, sum, k - 1);
      PassesOfLonger(sum, |a| + k, b, k, Passes(a));
    }
  }

  lemma PassesSum(a: seq<Item>, b: seq<Item>)
    ensures Passes(a + b) == Passes(a) + Passes(b)
  {
    PassesOfPrefix(a, b, a + b, |b|);
    assert (a + b)[..|a| + |b|] == a + b && b[..|b|] == b;
  }

  // ---------------------------------------------------------------------------------------------
  // Parsing
  // ---------------------------------------------------------------------------------------------

  /** The enclosing pass managers with what precedes them, the items so far, the kind of the innermost pass manager, and
      the name being read. */
  datatype Parser = Parser(stack: seq<(string, seq<Item>)>, curr: seq<Item>, kind: string, tok: string)

  function Flush(p: Parser): Parser {
    if p.tok == "" then p else p.(curr := p.curr + [Pass(p.tok)], tok := "")
  }

  /** Reads a character; None if a parenthesis is closed that has not been opened. */
  function Read(p: Parser, c: char): Option<Parser> {
    if c == ',' then Some(Flush(p))
    else if c == '(' then Some(Parser(p.stack + [(p.kind, p.curr)], [], p.tok, ""))
    else if c == ')' then
      var q, n := Flush(p), |p.stack| - 1;
      if p.stack == [] then None
      else Some(Parser(p.stack[..n], p.stack[n].1 + [Manager(q.kind, q.curr)], p.stack[n].0, ""))
    else Some(p.(tok := p.tok + [c]))
  }

  function ReadAll(p: Parser, s: string): Option<Parser>
    decreases |s|
  {
    if s == "" then Some(p) else
      match Read(p, s[0])
      case Some(q) => ReadAll(q, s[1..])
      case None => None
  }

  lemma {:induction false} ReadSum(p: Parser, s: string, t: string)
    ensures ReadAll(p, s + t) == match ReadAll(p, s) case Some(q) => ReadAll(q, t) case None => None
    decreases |s|
  {
    if s == "" {
      assert s + t == t;
    } else {
      assert (s + t)[1..] == s[1..] + t;
      match Read(p, s[0])
      case Some(q) => ReadSum(q, s[1..], t);
      case None =>
    }
  }

  lemma ReadOne(p: Parser, c: char)
    ensures ReadAll(p, [c]) == Read(p, c)
  {
    assert [c][1..] == "";
  }

  lemma {:induction false} ReadName(p: Parser, name: string)
    requires forall c <- name :: c != ',' && c != '(' && c != ')'
    ensures ReadAll(p, name) == Some(p.(tok := p.tok + name))
    decreases |name|
  {
    if name == "" {
      assert p.tok + name == p.tok;
    } else {
      assert name[0] in name;
      assert p.tok + [name[0]] + name[1..] == p.tok + name;
      assert forall c <- name[1..] :: c in name;
      ReadName(p.(tok := p.tok + [name[0]]), name[1..]);
    }
  }

  // ---------------------------------------------------------------------------------------------
  // Reading what has been printed
  // ---------------------------------------------------------------------------------------------

  function Depth(x: Item): nat {
    match x
    case Pass(_) => 0
    case Manager(_, items) => 1 + DepthAll(items)
  }

  function DepthAll(items: seq<Item>): (d: nat)
    ensures forall x <- items :: Depth(x) <= d
  {
    if items == [] then 0 else
      var n := |items| - 1;
      var d := DepthAll(items[..n]);
      assert items == items[..n] + [items[n]];
      if Depth(items[n]) > d then Depth(items[n]) else d
  }

  lemma DepthOfInit(items: seq<Item>)
    requires items != []
    ensures DepthAll(items[..|items| - 1]) <= DepthAll(items) && Depth(items[|items| - 1]) <= DepthAll(items)
  {
  }

  /** After reading the text, and flushing the name that is still being read, the items have been appended. */
  ghost predicate ReadsAs(p: Parser, s: string, items: seq<Item>) {
    ReadAll(p, s).Some? && Flush(ReadAll(p, s).value) == p.(curr := p.curr + items)
  }

  lemma {:induction false} ReadItem(p: Parser, x: Item)
    requires p.tok == "" && ItemOk(x)
    ensures ReadsAs(p, ItemStr(x), [x])
    decreases Depth(x), 1, 0
  {
    match x
    case Pass(name) =>
      ReadName(p, name);
      assert "" + name == name;
    case Manager(kind, items) =>
      var q := p.(tok := kind);
      var inner := Parser(p.stack + [(p.kind, p.curr)], [], kind, "");
      ReadName(p, kind);
      assert "" + kind == kind;
      ReadSum(p, kind, "(");
      ReadOne(q, '(');
      ReadItems(inner, items);
      ReadSum(p, kind + "(", ToStr(items));
      ReadSum(p, kind + "(" + ToStr(items), ")");
      ReadOne(ReadAll(inner, ToStr(items)).value, ')');
      assert [] + items == items;
  }

  lemma {:induction false} ReadItems(p: Parser, items: seq<Item>)
    requires p.tok == "" && AllOk(items)
    ensures ReadsAs(p, ToStr(items), items)
    decreases DepthAll(items), 2, |items|
  {
    if items == [] {
      assert p.curr + [] == p.curr;
    } else {
      var n := |items| - 1;
      DepthOfInit(items);
      assert items[n] in items && forall x <- items[..n] :: x in items;
      if n == 0 {
        ReadItem(p, items[0]);
        assert "" + ItemStr(items[0]) == ItemStr(items[0]) && [items[0]] == items;
      } else {
        var q := p.(curr := p.curr + items[..n]);
        ReadItems(p, items[..n]);
        ReadSum(p, ToStr(items[..n]), ",");
        ReadOne(ReadAll(p, ToStr(items[..n])).value, ',');
        ReadItem(q, items[n]);
        ReadSum(p, ToStr(items[..n]) + ",", ItemStr(items[n]));
        assert p.curr + items[..n] + [items[n]] == p.curr + items;
      }
    }
  }

  function Parse(s: string): Option<seq<Item>> {
    match ReadAll(Parser([], [], "", ""), s)
    case Some(p) => Some(Flush(p).curr)
    case None => None
  }

  /** Parsing what has been printed gives the pipeline again, with empty pass managers, too. */
  lemma ParseOfToStr(items: seq<Item>)
    requires AllOk(items)
    ensures Parse(ToStr(items)) == Some(items)
  {
    ReadItems(Parser([], [], "", ""), items);
    assert [] + items == items;
  }
}
