/**
 * The lines of a session and the rings they are on, as values: what `Smtp.Session` keeps as its
 * ghost state beside the linked fields.
 */
module Lines {
  import opened Rings
  import opened SmtpCommands

  /** smtp_line_t: the text together with its list_head */
  type Line = Link<string>

  datatype Cell = Cell(next: Link?<string>, prev: Link?<string>, text: string)

  /** The lines that are allocated, with their fields. */
  type Store = map<Line, Cell>

  function Get(m: Store, l: Line): Cell {
    if l in m then m[l] else Cell(null, null, "")
  }

  /** The links of a ring from its head on, with their texts. */
  datatype Chain = Chain(links: seq<Line>, texts: seq<string>)
  {
    function Head(): Link?<string> {
      if links == [] then null else links[0]
    }

    ghost function Members(): set<Line> {
      Elements(links)
    }

    /** list_add behind the head, or the first line of all */
    function With(line: Line, text: string): Chain {
      Chain(if links == [] then [line] else Spliced(links, 0, line), Stored(texts, text))
    }

    /** list_add_tail before the head, or the first line of all */
    function WithLast(line: Line, text: string): Chain {
      Chain(links + [line], texts + [text])
    }
  }

  const NOTHING := Chain([], [])

  /** The fields in the store make `c` a ring. */
  ghost predicate Held(m: Store, c: Chain) {
    && c.Members() <= m.Keys && Distinct(c.links) && |c.texts| == |c.links|
    && (forall i {:trigger Get(m, c.links[i])} :: 0 <= i < |c.links| ==>
      Get(m, c.links[i]) == Cell(After(c.links, i), c.links[if i > 0 then i - 1 else |c.links| - 1], c.texts[i]))
  }

  lemma HeldInside(m: Store, c: Chain)
    requires Held(m, c)
    ensures c.Members() <= m.Keys
  {
  }

  lemma HeldFrame(m: Store, m': Store, c: Chain)
    requires Held(m, c) && c.Members() <= m'.Keys
    requires forall l <- c.Members() :: Get(m', l) == Get(m, l)
    ensures Held(m', c)
  {
    forall i | 0 <= i < |c.links|
      ensures Get(m', c.links[i]) == Get(m, c.links[i])
    {
      assert c.links[i] in c.Members();
    }
  }

  /** Every allocated line is on exactly one of three rings. */
  ghost predicate Partition(m: Store, a: Chain, b: Chain, c: Chain) {
    && Held(m, a) && Held(m, b) && Held(m, c)
    && m.Keys == a.Members() + b.Members() + c.Members()
    && a.Members() !! b.Members() !! c.Members()
  }

  lemma Turned(m: Store, a: Chain, b: Chain, c: Chain)
    requires Partition(m, a, b, c)
    ensures Partition(m, b, c, a)
  {
  }

  lemma Freed(m: Store, a: Chain, b: Chain, c: Chain)
    requires Partition(m, a, b, c)
    ensures Partition(m - a.Members(), NOTHING, b, c)
  {
    HeldFrame(m, m - a.Members(), b);
    HeldFrame(m, m - a.Members(), c);
  }

  /** A ring has taken in one new line. */
  ghost predicate Joined(m: Store, m': Store, a: Chain, a': Chain, line: Line) {
    && Held(m', a') && line !in m && m'.Keys == m.Keys + {line} && a'.Members() == a.Members() + {line}
    && forall l <- m.Keys :: l in a.Members() || Get(m', l) == Get(m, l)
  }

  /** The store after a line has been allocated. */
  function WithNew(m: Store, line: Line, text: string): Store {
    m[line := Cell(line, line, text)]
  }

  /** A new line changes nothing about a ring it is not on. */
  lemma NewBeside(m: Store, c: Chain, line: Line, text: string)
    requires Held(m, c) && line !in m
    ensures Held(WithNew(m, line, text), c) && line !in c.links
  {
    assert line !in c.Members();
    HeldFrame(m, WithNew(m, line, text), c);
  }

  /** The first line of a ring. */
  lemma JoinedFirst(m: Store, c: Chain, line: Line, text: string)
    requires Held(m, c) && c.links == [] && line !in m
    ensures var d := c.WithLast(line, text);
      d == c.With(line, text) && d.Head() == line && Joined(m, WithNew(m, line, text), c, d, line)
  {
    assert c.texts == [] && [] + [line] == [line] && [] + [text] == [text];
    assert c.WithLast(line, text) == Chain([line], [text]);
    assert [line][..0] == [];
  }

  /** A further line, allocated first and then linked. */
  lemma JoinedLater(m: Store, m': Store, c: Chain, d: Chain, line: Line, text: string)
    requires line !in m && Held(m', d) && d.Members() == c.Members() + {line}
    requires var new1 := WithNew(m, line, text); m'.Keys == new1.Keys && forall l <- new1.Keys - d.Members() :: Get(m', l) == Get(new1, l)
    ensures Joined(m, m', c, d, line)
  {
    forall l | l in m.Keys && l !in c.Members()
      ensures Get(m', l) == Get(m, l)
    {
      assert l in WithNew(m, line, text).Keys - d.Members();
      assert Get(WithNew(m, line, text), l) == Get(m, l);
    }
  }

  lemma Grown(m: Store, m': Store, a: Chain, a': Chain, b: Chain, c: Chain, line: Line)
    requires Partition(m, a, b, c) && Joined(m, m', a, a', line)
    ensures Partition(m', a', b, c)
  {
    HeldFrame(m, m', b);
    HeldFrame(m, m', c);
  }
}
