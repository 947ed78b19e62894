/**
 Registers stored as consecutive words on a stack, the way the `sw` and `lw` sequences
 of `kernel_entry` and `switch_context` do it.
 */
module StackWords {
  import opened Sv32

  /** The words ws are stored from address a on. */
  ghost predicate At(m: Ram, a: nat, ws: seq<nat>)
  {
    forall k :: 0 <= k < |ws| ==> Load(m, a + 4 * k) == ws[k]
  }

  /** Consecutive `sw` instructions. */
  function SaveWords(m: Ram, a: nat, ws: seq<nat>): Ram
    decreases |ws|
  {
    if ws == [] then m
    else Store(SaveWords(m, a, ws[..|ws| - 1]), a + 4 * (|ws| - 1), ws[|ws| - 1])
  }

  /** Consecutive `lw` instructions. */
  function LoadWords(m: Ram, a: nat, n: nat): seq<nat>
  {
    seq(n, k requires k >= 0 => Load(m, a + 4 * k))
  }

  lemma {:induction false} SaveWordsEffect(m: Ram, a: nat, ws: seq<nat>)
    ensures At(SaveWords(m, a, ws), a, ws)
    ensures forall b: nat :: b < a || b >= a + 4 * |ws| ==> Load(SaveWords(m, a, ws), b) == Load(m, b)
    decreases |ws|
  {
    if ws != [] {
      SaveWordsEffect(m, a, ws[..|ws| - 1]);
    }
  }

  lemma LoadsBack(m: Ram, a: nat, ws: seq<nat>)
    requires At(m, a, ws)
    ensures LoadWords(m, a, |ws|) == ws
  {
  }

  /** Words that were not overwritten are still there. */
  lemma AtUnchanged(m: Ram, m': Ram, a: nat, ws: seq<nat>, lo: nat, hi: nat)
    requires At(m, a, ws)
    requires forall b: nat :: b < lo || b >= hi ==> Load(m', b) == Load(m, b)
    requires a + 4 * |ws| <= lo || hi <= a
    ensures At(m', a, ws)
  {
  }
}
