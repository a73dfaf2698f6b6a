/**
 * The selection list model: an ordered list of items with at most one
 * highlighted index, navigated with wrap-around `Next` and `Previous`.
 */
module Selection {
  import opened Wrappers

  /** The observable value of a selection list: its items and its highlighted index. */
  datatype ListView = ListView(items: seq<string>, selected: Option<nat>)

  /** The list invariant: the list is non-empty and a highlighted index points into it. */
  predicate WellFormed(l: ListView) {
    |l.items| > 0 && (l.selected.Some? ==> l.selected.value < |l.items|)
  }

  /**
   * The index `next` selects in a list of `len` items.  From an invalid
   * index it falls back to 0, so the result is always in range.
   */
  function NextIndex(selected: Option<nat>, len: nat): (r: nat)
    requires len > 0
    ensures r < len
    ensures selected.None? ==> r == 0
    ensures selected.Some? && selected.value < len ==> r == (selected.value + 1) % len
    ensures selected.Some? && selected.value >= len ==> r == 0
  {
    match selected
    case None => 0
    case Some(i) => if i >= len - 1 then 0 else i + 1
  }

  /**
   * The index `previous` selects in a list of `len` items.  Unlike `next`,
   * an index beyond `len` only steps down by one, so `previous` brings an
   * invalid index back into range only when it was exactly `len`.
   */
  function PrevIndex(selected: Option<nat>, len: nat): (r: nat)
    requires len > 0
    ensures selected.None? ==> r == 0
    ensures selected.Some? && selected.value < len ==> r == (selected.value - 1 + len) % len
    ensures selected.Some? && selected.value >= len ==> r == selected.value - 1
    ensures selected.Some? ==> (r < len <==> selected.value <= len)
  {
    match selected
    case None => 0
    case Some(i) =>
      if i == 0 then
        ModUnique(len - 1, 0, len - 1, len);
        len - 1
      else
        if i < len then ModUnique(i - 1 + len, 1, i - 1, len); i - 1
        else i - 1
  }

  /** For a valid index, `previous` undoes `next`. */
  lemma PrevUndoesNext(i: nat, len: nat)
    requires i < len
    ensures PrevIndex(Some(NextIndex(Some(i), len)), len) == i
  {
  }

  /** For a valid index, `next` undoes `previous`. */
  lemma NextUndoesPrev(i: nat, len: nat)
    requires i < len
    ensures NextIndex(Some(PrevIndex(Some(i), len)), len) == i
  {
  }

  /** The index reached from `i` by `k` calls of `next`. */
  function IterateNext(i: nat, len: nat, k: nat): nat
    requires len > 0
  {
    if k == 0 then i else NextIndex(Some(IterateNext(i, len, k - 1)), len)
  }

  /** The index reached from `i` by `k` calls of `previous`. */
  function IteratePrev(i: nat, len: nat, k: nat): nat
    requires len > 0
  {
    if k == 0 then i else PrevIndex(Some(IteratePrev(i, len, k - 1)), len)
  }

  /** Stepping forward by one, modulo `n`. */
  lemma ModSucc(x: int, n: nat)
    requires n > 0
    ensures (x + 1) % n == if x % n == n - 1 then 0 else x % n + 1
  {
    var q, r := x / n, x % n;
    assert x == q * n + r;
    if r == n - 1 {
      assert x + 1 == (q + 1) * n;
      ModOfMultiple(q + 1, n);
    } else {
      assert x + 1 == q * n + (r + 1);
      ModUnique(x + 1, q, r + 1, n);
    }
  }

  /** Stepping backward by one, modulo `n`. */
  lemma ModPred(x: int, n: nat)
    requires n > 0
    ensures (x - 1) % n == if x % n == 0 then n - 1 else x % n - 1
  {
    var q, r := x / n, x % n;
    assert x == q * n + r;
    if r == 0 {
      assert x - 1 == (q - 1) * n + (n - 1);
      ModUnique(x - 1, q - 1, n - 1, n);
    } else {
      assert x - 1 == q * n + (r - 1);
      ModUnique(x - 1, q, r - 1, n);
    }
  }

  /** A multiple of `n` leaves no remainder. */
  lemma ModOfMultiple(q: int, n: nat)
    requires n > 0
    ensures (q * n) % n == 0
  {
    ModUnique(q * n, q, 0, n);
  }

  /** The remainder is determined by any quotient-remainder decomposition. */
  lemma ModUnique(a: int, q: int, r: int, n: nat)
    requires n > 0 && 0 <= r < n && a == q * n + r
    ensures a % n == r
  {
    var q', r' := a / n, a % n;
    assert a == q' * n + r';
    assert (q - q') * n == r' - r;
    if q > q' {
      MulAtLeast(q - q', n);
    } else if q < q' {
      MulAtLeast(q' - q, n);
    }
  }

  /** A positive multiple of `n` is at least `n`. */
  lemma MulAtLeast(d: int, n: nat)
    requires d >= 1
    ensures d * n >= n
  {
  }

  /** `k` calls of `next` on a valid index advance it by `k`, wrapping modulo the length. */
  lemma {:induction false} IterateNextMod(i: nat, len: nat, k: nat)
    requires i < len
    ensures IterateNext(i, len, k) == (i + k) % len
  {
    if k == 0 {
      ModUnique(i, 0, i, len);
    } else {
      IterateNextMod(i, len, k - 1);
      ModSucc(i + k - 1, len);
    }
  }

  /** `k` calls of `previous` on a valid index move it back by `k`, wrapping modulo the length. */
  lemma {:induction false} IteratePrevMod(i: nat, len: nat, k: nat)
    requires i < len
    ensures IteratePrev(i, len, k) == (i - k) % len
  {
    if k == 0 {
      ModUnique(i, 0, i, len);
    } else {
      IteratePrevMod(i, len, k - 1);
      ModPred(i - k + 1, len);
    }
  }

  /** `len` calls of `next`, or of `previous`, come back to the starting index. */
  lemma FullCycle(i: nat, len: nat)
    requires i < len
    ensures IterateNext(i, len, len) == i
    ensures IteratePrev(i, len, len) == i
  {
    IterateNextMod(i, len, len);
    ModUnique(i + len, 1, i, len);
    IteratePrevMod(i, len, len);
    ModUnique(i - len, -1, i, len);
  }

  /** The stateful list: its items and the highlighted index of its list state. */
  class StatefulList {
    var items: seq<string>
    var selected: Option<nat>

    ghost function View(): ListView
      reads this
    {
      ListView(items, selected)
    }

    ghost predicate Valid()
      reads this
    {
      WellFormed(View())
    }

    /** A list over `items` with nothing highlighted. */
    constructor WithItems(items: seq<string>)
      ensures View() == ListView(items, None)
      ensures |items| > 0 ==> Valid()
    {
      this.items := items;
      selected := None;
    }

    /** Highlight the following item, wrapping from the last to the first. */
    method Next()
      requires |items| > 0
      modifies this`selected
      ensures selected == Some(NextIndex(old(selected), |items|))
      ensures Valid()
    {
      selected := Some(NextIndex(selected, |items|));
    }

    /** Highlight the preceding item, wrapping from the first to the last. */
    method Previous()
      requires |items| > 0
      modifies this`selected
      ensures selected == Some(PrevIndex(old(selected), |items|))
      ensures old(Valid()) ==> Valid()
    {
      selected := Some(PrevIndex(selected, |items|));
    }
  }
}
