/** Short-term conversational context: a log of turns, trimmed from the front
    to the most recent `2 * maxTurns` entries, rendered one turn per line. */
module ShortTermMemory {
  import opened Text

  datatype Turn = Turn(role: string, content: string)

  /** Python's `s[start:]` for any integer `start`: a negative start counts
      from the end and is clamped at 0, a start past the end gives `[]`. */
  function SliceFrom<T>(s: seq<T>, start: int): (r: seq<T>)
    ensures start >= 0 ==> r == s[if start <= |s| then start else |s|..]
    ensures start < 0 ==> r == s[if |s| + start >= 0 then |s| + start else 0..]
  {
    if start >= 0 then s[if start <= |s| then start else |s|..]
    else s[if |s| + start >= 0 then |s| + start else 0..]
  }

  /** The history after `add`: append, then keep `history[-(maxTurns * 2):]`
      when the history has grown past `maxTurns * 2`. */
  function AfterAdd(history: seq<Turn>, maxTurns: int, t: Turn): seq<Turn> {
    var appended := history + [t];
    if |appended| > maxTurns * 2 then SliceFrom(appended, -(maxTurns * 2)) else appended
  }

  /** The last `n` entries of `s`. */
  function Last<T>(s: seq<T>, n: nat): seq<T>
    requires n <= |s|
  {
    s[|s| - n..]
  }

  /** Eviction is FIFO: the new history is the newest `min(|old| + 1, 2 * maxTurns)`
      entries of old-plus-new, in their original order, ending with the new
      turn, and never longer than `2 * maxTurns`. */
  lemma AddKeepsNewest(history: seq<Turn>, maxTurns: int, t: Turn)
    requires maxTurns >= 1
    ensures var n := if |history| + 1 <= 2 * maxTurns then |history| + 1 else 2 * maxTurns;
      AfterAdd(history, maxTurns, t) == Last(history + [t], n)
    ensures |AfterAdd(history, maxTurns, t)| <= 2 * maxTurns
    ensures AfterAdd(history, maxTurns, t)[|AfterAdd(history, maxTurns, t)| - 1] == t
  {
  }

  /** Nothing is dropped while the log fits: the new turn is simply appended. */
  lemma AddWithinCapacity(history: seq<Turn>, maxTurns: int, t: Turn)
    requires |history| + 1 <= 2 * maxTurns
    ensures AfterAdd(history, maxTurns, t) == history + [t]
  {
  }

  /** With `maxTurns == 0` the slice `history[-0:]` is the whole list, so
      nothing is ever trimmed. */
  lemma AddWithZeroKeepsAll(history: seq<Turn>, t: Turn)
    ensures AfterAdd(history, 0, t) == history + [t]
  {
  }

  /** With a negative `maxTurns` the slice start `-(maxTurns * 2)` is
      positive, so every add drops the oldest `-2 * maxTurns` entries. */
  lemma AddWithNegativeDropsOldest(history: seq<Turn>, maxTurns: int, t: Turn)
    requires maxTurns < 0
    ensures var k := -2 * maxTurns;
      AfterAdd(history, maxTurns, t) == (history + [t])[if k <= |history| + 1 then k else |history| + 1..]
  {
  }

  /** The history after adding `turns` one after another. */
  function AfterAddAll(history: seq<Turn>, maxTurns: int, turns: seq<Turn>): seq<Turn>
    decreases |turns|
  {
    if turns == [] then history
    else AfterAddAll(AfterAdd(history, maxTurns, turns[0]), maxTurns, turns[1..])
  }

  /** Keeping the newest `m` and then the newest `n` of what follows is
      keeping the newest `n`, when `n` reaches no further back than `m`. */
  lemma LastOfLast<T>(x: seq<T>, y: seq<T>, m: nat, n: nat)
    requires m <= |x| && n <= m + |y|
    ensures Last(Last(x, m) + y, n) == Last(x + y, n)
  {
    var z, k := x + y, |x| - m;
    assert Last(x, m) + y == z[k..];
    assert z[k..][|z[k..]| - n..] == z[|z| - n..];
  }

  /** If `h` is the newest entries of `x` up to `cap`, then the newest entries
      of `h + y` up to `cap` are those of `x + y`. */
  lemma NewestThenMore<T>(x: seq<T>, y: seq<T>, h: seq<T>, cap: nat)
    requires |h| == (if |x| <= cap then |x| else cap) && h == Last(x, |h|)
    ensures var n := if |x + y| <= cap then |x + y| else cap;
      (if |h + y| <= cap then |h + y| else cap) == n && Last(h + y, n) == Last(x + y, n)
  {
    var n := if |x + y| <= cap then |x + y| else cap;
    LastOfLast(x, y, |h|, n);
  }

  /** After any run of adds starting from a history within capacity, the
      history is exactly the newest `2 * maxTurns` (or fewer) of all turns. */
  lemma {:induction false} AddAllKeepsNewest(history: seq<Turn>, maxTurns: int, turns: seq<Turn>)
    requires maxTurns >= 1 && |history| <= 2 * maxTurns
    ensures var all := history + turns;
      var n := if |all| <= 2 * maxTurns then |all| else 2 * maxTurns;
      AfterAddAll(history, maxTurns, turns) == Last(all, n)
    decreases |turns|
  {
    if turns == [] {
      assert history + turns == history;
    } else {
      var x, y := history + [turns[0]], turns[1..];
      var h1 := AfterAdd(history, maxTurns, turns[0]);
      AddKeepsNewest(history, maxTurns, turns[0]);
      AddAllKeepsNewest(h1, maxTurns, y);
      assert history + turns == x + y by {
        assert turns == [turns[0]] + y;
      }
      NewestThenMore(x, y, h1, 2 * maxTurns);
    }
  }

  function Render(t: Turn): string {
    t.role + ": " + t.content
  }

  function RenderAll(history: seq<Turn>): (lines: seq<string>)
    ensures |lines| == |history|
    ensures forall i :: 0 <= i < |history| ==> lines[i] == Render(history[i])
  {
    if history == [] then [] else RenderAll(history[..|history| - 1]) + [Render(history[|history| - 1])]
  }

  /** `"\n".join(f"{role}: {content}" for each turn)`. */
  function ContextOf(history: seq<Turn>): string {
    Join(RenderAll(history), "\n")
  }

  /** The context of a longer history is the earlier context, a newline, and
      the later turns' context: turns appear in history order. */
  lemma ContextSplits(a: seq<Turn>, b: seq<Turn>)
    requires a != [] && b != []
    ensures ContextOf(a + b) == ContextOf(a) + "\n" + ContextOf(b)
  {
    var la, lb := RenderAll(a), RenderAll(b);
    assert RenderAll(a + b) == la + lb;
    JoinAppend(la, lb, "\n");
  }

  /** `max_turns`'s default: up to six exchanges, twelve turns. */
  const DefaultMaxTurns := 6

  /** `WorkingMemory`. */
  class WorkingMemory {
    const maxTurns: int
    var history: seq<Turn>

    ghost predicate Valid()
      reads this
    {
      maxTurns >= 1 ==> |history| <= 2 * maxTurns
    }

    constructor (maxTurns: int := DefaultMaxTurns)
      ensures Valid() && this.maxTurns == maxTurns && history == []
    {
      this.maxTurns := maxTurns;
      history := [];
    }

    /** `add(role, content)`. */
    method Add(role: string, content: string)
      requires Valid()
      modifies this
      ensures Valid()
      ensures history == AfterAdd(old(history), maxTurns, Turn(role, content))
    {
      history := history + [Turn(role, content)];
      if |history| > maxTurns * 2 {
        history := SliceFrom(history, -(maxTurns * 2));
      }
    }

    /** `context()`: empty for an empty history, otherwise one
        `"role: content"` line per turn, oldest first. */
    function Context(): (s: string)
      reads this
      ensures history == [] ==> s == ""
      ensures |history| == 1 ==> s == Render(history[0])
      ensures |history| > 1 ==>
        s == ContextOf(history[..|history| - 1]) + "\n" + Render(history[|history| - 1])
    {
      ContextOf(history)
    }
  }
}
