/** Splitting an event stream at its blank lines, all at once and piece by piece. */
module SseBlocks {
  import opened PyText

  predicate BreakAt(s: string, i: nat) {
    i + 1 < |s| && s[i] == '\n' && s[i + 1] == '\n'
  }

  lemma BreaksShift(s: string)
    requires s != ""
    ensures forall j: nat :: j > 0 ==> BreakAt(s, j) == BreakAt(s[1..], j - 1)
  {
  }

  /** The index of the first blank-line break, or the length when there is none. */
  function FirstBreak(s: string): (i: nat)
    ensures i <= |s|
    ensures i < |s| ==> BreakAt(s, i)
    ensures forall j: nat :: j < i ==> !BreakAt(s, j)
  {
    if |s| < 2 then |s|
    else if BreakAt(s, 0) then 0
    else
      var rest := FirstBreak(s[1..]);
      BreaksShift(s);
      1 + rest
  }

  predicate HasBreak(s: string) {
    FirstBreak(s) < |s|
  }

  /** The blocks that end in a blank line, without it. */
  function Blocks(s: string): seq<string>
    decreases |s|
  {
    if !HasBreak(s) then [] else [s[..FirstBreak(s)]] + Blocks(s[FirstBreak(s) + 2..])
  }

  /** What follows the last terminated block. */
  function Tail(s: string): string
    decreases |s|
  {
    if !HasBreak(s) then s else Tail(s[FirstBreak(s) + 2..])
  }

  /** Every block followed by its blank line. */
  function Join(blocks: seq<string>): string {
    if blocks == [] then "" else blocks[0] + "\n\n" + Join(blocks[1..])
  }

  /** A text that, followed by a blank line, is not broken earlier: no blank line inside, no newline at its end. */
  predicate IsBlock(b: string) {
    !HasBreak(b) && (b == "" || b[|b| - 1] != '\n')
  }

  lemma FirstBreakIs(s: string, i: nat)
    requires BreakAt(s, i) && forall j: nat :: j < i ==> !BreakAt(s, j)
    ensures FirstBreak(s) == i
  {
  }

  lemma NoBreak(s: string)
    ensures HasBreak(s) <==> exists i: nat :: BreakAt(s, i)
  {
    if i: nat :| BreakAt(s, i) {
      assert FirstBreak(s) <= i;
    } else {
      assert !BreakAt(s, FirstBreak(s));
    }
  }

  /** A block followed by a blank line is split off whole, whatever comes next. */
  lemma SplitsOff(b: string, rest: string)
    requires IsBlock(b)
    ensures Blocks(b + "\n\n" + rest) == [b] + Blocks(rest)
    ensures Tail(b + "\n\n" + rest) == Tail(rest)
  {
    var s := b + "\n\n" + rest;
    forall j: nat | j < |b| ensures !BreakAt(s, j) {
      if j + 1 < |b| {
        assert !BreakAt(b, j);
      }
    }
    FirstBreakIs(s, |b|);
    assert s[..|b|] == b && s[|b| + 2..] == rest;
  }

  lemma FirstBlockIsBlock(s: string)
    requires HasBreak(s)
    ensures IsBlock(s[..FirstBreak(s)])
    ensures s == s[..FirstBreak(s)] + "\n\n" + s[FirstBreak(s) + 2..]
  {
    var i := FirstBreak(s);
    var b := s[..i];
    NoBreak(b);
    forall j: nat | BreakAt(b, j) ensures false {
      assert BreakAt(s, j);
    }
    if i > 0 {
      assert !BreakAt(s, i - 1);
    }
  }

  /** Splitting conserves the text, and produces blocks and a tail without blank lines. */
  lemma {:induction false} SplitConserves(s: string)
    ensures Join(Blocks(s)) + Tail(s) == s
    ensures forall b :: b in Blocks(s) ==> IsBlock(b)
    ensures !HasBreak(Tail(s))
    decreases |s|
  {
    if HasBreak(s) {
      var b, rest := s[..FirstBreak(s)], s[FirstBreak(s) + 2..];
      FirstBlockIsBlock(s);
      SplitConserves(rest);
      assert Blocks(s)[0] == b && Blocks(s)[1..] == Blocks(rest);
      Associate(b + "\n\n", Join(Blocks(rest)), Tail(rest));
    }
  }

  /** The split is the only one: any blocks and tail that make up the text are the ones found. */
  lemma {:induction false} SplitIsUnique(blocks: seq<string>, tail: string)
    requires (forall b :: b in blocks ==> IsBlock(b)) && !HasBreak(tail)
    ensures Blocks(Join(blocks) + tail) == blocks && Tail(Join(blocks) + tail) == tail
  {
    if blocks == [] {
      assert Join(blocks) + tail == tail;
    } else {
      assert blocks[0] in blocks && forall b :: b in blocks[1..] ==> b in blocks;
      SplitIsUnique(blocks[1..], tail);
      Associate(blocks[0] + "\n\n", Join(blocks[1..]), tail);
      SplitsOff(blocks[0], Join(blocks[1..]) + tail);
      assert blocks == [blocks[0]] + blocks[1..];
    }
  }

  /**
   Splitting is incremental: after splitting what has arrived, it is enough to split the kept tail with the
   next piece appended, even when a blank line is cut between the two.
   */
  lemma {:induction false} SplitExtends(a: string, b: string)
    ensures Blocks(a + b) == Blocks(a) + Blocks(Tail(a) + b)
    ensures Tail(a + b) == Tail(Tail(a) + b)
    decreases |a|
  {
    if HasBreak(a) {
      var block, rest := a[..FirstBreak(a)], a[FirstBreak(a) + 2..];
      FirstBlockIsBlock(a);
      SplitExtends(rest, b);
      Associate(block + "\n\n", rest, b);
      SplitsOff(block, rest + b);
      Associate([block], Blocks(rest), Blocks(Tail(rest) + b));
    }
  }

  lemma {:induction false} JoinAppend(a: seq<string>, b: seq<string>)
    ensures Join(a + b) == Join(a) + Join(b)
  {
    if a == [] {
      assert a + b == b;
    } else {
      JoinAppend(a[1..], b);
      assert (a + b)[0] == a[0] && (a + b)[1..] == a[1..] + b;
      Associate(a[0] + "\n\n", Join(a[1..]), Join(b));
    }
  }

  // ---- Carriage returns ----

  /** `s.replace("\r", "")` */
  function StripCr(s: string): (r: string)
    ensures '\r' !in r
    ensures '\r' !in s ==> r == s
  {
    if s == [] then []
    else if s[0] == '\r' then StripCr(s[1..])
    else
      assert s == [s[0]] + s[1..];
      [s[0]] + StripCr(s[1..])
  }

  lemma {:induction false} StripCrAppend(a: string, b: string)
    ensures StripCr(a + b) == StripCr(a) + StripCr(b)
  {
    if a == [] {
      assert a + b == b;
    } else {
      StripCrAppend(a[1..], b);
      assert (a + b)[0] == a[0] && (a + b)[1..] == a[1..] + b;
      Associate([a[0]], StripCr(a[1..]), StripCr(b));
    }
  }
}
