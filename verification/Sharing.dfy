/** Two address spaces after a clone: what each reads while both write. */
module Sharing {
  import opened Machine

  type Contents = seq<Byte>

  /** The frame of each mapped page, in the original and in the copy, and the pages they share. */
  datatype Spaces = Spaces(original: map<nat, nat>, copy: map<nat, nat>, shared: iset<nat>)

  /** A page written, through the copy or through the original. */
  datatype Write = Write(copy: bool, page: nat, contents: Contents)

  function Side(sp: Spaces, copy: bool): map<nat, nat> {
    if copy then sp.copy else sp.original
  }

  /** A shared page whose frame is also that of a page private to the copy. */
  datatype Leak = NoLeak | Leak(page: nat, hidden: nat)

  /** A frame seen from both sides is a shared page, at the same place, or the leak. */
  ghost predicate IsolatedBut(sp: Spaces, leak: Leak) {
    && (leak.Leak? ==> leak.page in sp.shared && leak.hidden !in sp.shared)
    && (forall p, q :: p in sp.original && q in sp.copy ==>
          (sp.original[p] == sp.copy[q] <==> (p == q && p in sp.shared) || leak == Leak(p, q)))
  }

  ghost predicate Isolated(sp: Spaces) {
    IsolatedBut(sp, NoLeak)
  }

  /** Each write goes to a mapped page, whose frame is in memory. */
  ghost predicate Proper(sp: Spaces, ws: seq<Write>, frames: nat) {
    forall i :: 0 <= i < |ws| ==> ws[i].page in Side(sp, ws[i].copy) && Side(sp, ws[i].copy)[ws[i].page] < frames
  }

  /** Memory after the writes. */
  ghost function After(sp: Spaces, ws: seq<Write>, m: seq<Contents>): (r: seq<Contents>)
    requires Proper(sp, ws, |m|)
    ensures |r| == |m|
  {
    if ws == [] then m
    else
      var w := ws[|ws| - 1];
      After(sp, ws[..|ws| - 1], m)[Side(sp, w.copy)[w.page] := w.contents]
  }

  /** The writes that satisfy `keep`, in order. */
  ghost function Only(ws: seq<Write>, keep: Write -> bool): (r: seq<Write>)
    ensures forall w :: w in r ==> w in ws && keep(w)
  {
    if ws == [] then []
    else
      var w := ws[|ws| - 1];
      Only(ws[..|ws| - 1], keep) + if keep(w) then [w] else []
  }

  lemma OnlyProper(sp: Spaces, ws: seq<Write>, keep: Write -> bool, frames: nat)
    requires Proper(sp, ws, frames)
    ensures Proper(sp, Only(ws, keep), frames)
  {
    var r := Only(ws, keep);
    forall i | 0 <= i < |r| ensures r[i].page in Side(sp, r[i].copy) && Side(sp, r[i].copy)[r[i].page] < frames {
      assert r[i] in ws;
    }
  }

  /** Writes to other frames do not matter to a frame. */
  lemma {:induction false} OthersDoNotMatter(sp: Spaces, ws: seq<Write>, m: seq<Contents>, keep: Write -> bool, f: nat)
    requires Proper(sp, ws, |m|) && f < |m|
    requires forall w :: w in ws && !keep(w) ==> w.page in Side(sp, w.copy) && Side(sp, w.copy)[w.page] != f
    ensures Proper(sp, Only(ws, keep), |m|) && After(sp, ws, m)[f] == After(sp, Only(ws, keep), m)[f]
  {
    OnlyProper(sp, ws, keep, |m|);
    if ws != [] {
      var init, w := ws[..|ws| - 1], ws[|ws| - 1];
      OthersDoNotMatter(sp, init, m, keep, f);
      var kept := Only(init, keep);
      if keep(w) {
        assert Only(ws, keep) == kept + [w];
        assert (kept + [w])[..|kept|] == kept;
      } else {
        assert Only(ws, keep) == kept;
      }
    }
  }

  /** The writes one side can see: its own, and those of the other side to shared pages. */
  ghost function Visible(sp: Spaces, copy: bool): Write -> bool {
    (w: Write) => w.copy == copy || w.page in sp.shared
  }

  ghost function Own(copy: bool): Write -> bool {
    (w: Write) => w.copy == copy
  }

  /** The page of one side that the other side's private writes can reach. */
  ghost predicate Exposed(leak: Leak, copy: bool, page: nat) {
    leak.Leak? && page == if copy then leak.hidden else leak.page
  }

  /** A write through the other side misses a page, unless it is to that page and the page is shared. */
  lemma Misses(sp: Spaces, leak: Leak, ws: seq<Write>, frames: nat, copy: bool, page: nat, w: Write)
    requires IsolatedBut(sp, leak) && Proper(sp, ws, frames) && page in Side(sp, copy)
    requires w in ws && w.copy != copy && (w.page !in sp.shared || page !in sp.shared)
    requires Exposed(leak, copy, page) ==> copy && w.page !in sp.shared
    ensures w.page in Side(sp, w.copy) && Side(sp, w.copy)[w.page] != Side(sp, copy)[page]
  {
    var i :| 0 <= i < |ws| && ws[i] == w;
    assert w.page in Side(sp, w.copy);
  }

  /**
   * Over any interleaving of writes through both sides, what a side reads from any of its pages does not depend on
   * the other side's writes to pages that are not shared; except for the original reading the leaking page.
   */
  lemma WritesStayPrivate(sp: Spaces, leak: Leak, ws: seq<Write>, m: seq<Contents>, copy: bool, page: nat)
    requires IsolatedBut(sp, leak) && Proper(sp, ws, |m|) && page in Side(sp, copy) && Side(sp, copy)[page] < |m|
    requires copy || !Exposed(leak, copy, page)
    ensures Proper(sp, Only(ws, Visible(sp, copy)), |m|)
    ensures var f := Side(sp, copy)[page]; After(sp, ws, m)[f] == After(sp, Only(ws, Visible(sp, copy)), m)[f]
  {
    hide After, Only, IsolatedBut, Proper;
    forall w | w in ws && !Visible(sp, copy)(w)
      ensures w.page in Side(sp, w.copy) && Side(sp, w.copy)[w.page] != Side(sp, copy)[page]
    {
      Misses(sp, leak, ws, |m|, copy, page, w);
    }
    OthersDoNotMatter(sp, ws, m, Visible(sp, copy), Side(sp, copy)[page]);
  }

  /** And what it reads from a page that is not shared depends on its own writes only, the hidden page excepted. */
  lemma PrivatePages(sp: Spaces, leak: Leak, ws: seq<Write>, m: seq<Contents>, copy: bool, page: nat)
    requires IsolatedBut(sp, leak) && Proper(sp, ws, |m|) && page in Side(sp, copy) && Side(sp, copy)[page] < |m|
    requires page !in sp.shared && !Exposed(leak, copy, page)
    ensures Proper(sp, Only(ws, Own(copy)), |m|)
    ensures var f := Side(sp, copy)[page]; After(sp, ws, m)[f] == After(sp, Only(ws, Own(copy)), m)[f]
  {
    hide After, Only, IsolatedBut, Proper;
    forall w | w in ws && !Own(copy)(w)
      ensures w.page in Side(sp, w.copy) && Side(sp, w.copy)[w.page] != Side(sp, copy)[page]
    {
      Misses(sp, leak, ws, |m|, copy, page, w);
    }
    OthersDoNotMatter(sp, ws, m, Own(copy), Side(sp, copy)[page]);
  }

  /** A shared page reads the same through both, whoever wrote to it. */
  lemma SharedPages(sp: Spaces, leak: Leak, ws: seq<Write>, m: seq<Contents>, page: nat)
    requires IsolatedBut(sp, leak) && Proper(sp, ws, |m|)
    requires page in sp.shared && page in sp.original && page in sp.copy && sp.original[page] < |m|
    ensures sp.copy[page] < |m| && After(sp, ws, m)[sp.original[page]] == After(sp, ws, m)[sp.copy[page]]
  {
  }

  /**
   * Both exceptions are real: whatever else was written before, a write to the leaking page through the original is
   * what the copy then reads from its hidden page, and a write to that page is what the original reads from the
   * leaking one.
   */
  lemma LeakIsReal(sp: Spaces, leak: Leak, ws: seq<Write>, m: seq<Contents>, c: Contents)
    requires IsolatedBut(sp, leak) && leak.Leak? && leak.page in sp.original && leak.hidden in sp.copy
    requires Proper(sp, ws, |m|) && sp.original[leak.page] < |m|
    ensures var down, up := Write(false, leak.page, c), Write(true, leak.hidden, c);
      && Proper(sp, ws + [down], |m|) && Proper(sp, ws + [up], |m|)
      && sp.copy[leak.hidden] == sp.original[leak.page]
      && After(sp, ws + [down], m)[sp.copy[leak.hidden]] == c
      && After(sp, ws + [up], m)[sp.original[leak.page]] == c
  {
    var down, up := Write(false, leak.page, c), Write(true, leak.hidden, c);
    assert (ws + [down])[..|ws|] == ws && (ws + [up])[..|ws|] == ws;
  }
}
