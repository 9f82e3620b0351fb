/** The ring of log lines kept for diagnostics: backend/xray/startup_diagnostics.go. */
module LogRing {
  import opened Powers

  class Ring {
    var lines: array<string>
    var next: int
    var full: bool

    /** Every line added since the last reset. */
    ghost var added: seq<string>

    ghost predicate Valid()
      reads this, lines
    {
      && lines.Length > 0 && 0 <= next < lines.Length
      && (full <==> |added| >= lines.Length)
      && next == |added| % lines.Length
      && forall k :: 0 <= k < |added| && |added| - lines.Length <= k ==> lines[k % lines.Length] == added[k]
    }

    constructor (size: int)
      ensures Valid() && fresh(lines) && added == [] && lines.Length == if size <= 0 then 1 else size
    {
      var n := if size <= 0 then 1 else size;
      lines := new string[n](_ => "");
      next, full, added := 0, false, [];
    }

    method Reset()
      requires Valid()
      modifies this, lines
      ensures Valid() && added == [] && lines == old(lines)
    {
      next, full, added := 0, false, [];
      for i := 0 to lines.Length
        invariant lines == old(lines) && next == 0 && !full && added == []
        modifies lines
      {
        lines[i] := "";
      }
    }

    method Add(line: string)
      requires Valid()
      modifies this, lines
      ensures Valid() && added == old(added) + [line] && lines == old(lines)
    {
      var size := lines.Length;
      var at := next;
      lines[at] := line;
      NextIndex(|added|, size);
      next := (next + 1) % size;
      if next == 0 {
        full := true;
      }
      added := added + [line];
      forall k | 0 <= k < |added| - 1 && |added| - size <= k
        ensures k % size != at
      {
        ApartInWindow(k, |added| - 1, size);
      }
    }

    /** tail: the last lines added since the last reset, as many of the n asked for as were added and fit;
        every retained line when n is not positive. */
    method Tail(n: int) returns (out: seq<string>)
      requires Valid()
      ensures var held := Min(|added|, lines.Length);
              out == added[|added| - (if n <= 0 then held else Min(n, held))..]
    {
      var count := next;
      if full {
        count := lines.Length;
      }
      BelowIsItself(|added|, lines.Length);
      assert count == Min(|added|, lines.Length);
      hide Valid;
      if count == 0 {
        return [];
      }
      var m := n;
      if n <= 0 || n > count {
        m := count;
      }
      var oldest := 0;
      if full {
        oldest := next;
      }
      var start := count - m;
      out := [];
      for i := 0 to m
        invariant out == added[|added| - m..|added| - m + i]
      {
        var line := Line(oldest + start + i, start + i, count);
        out := out + [line];
      }
    }

    /** The i-th of the retained lines, oldest first. */
    method Line(walk: nat, i: nat, ghost count: nat) returns (line: string)
      requires Valid() && count == Min(|added|, lines.Length) && i < count
      requires walk == (if full then next else 0) + i
      ensures line == added[|added| - count + i]
    {
      LineAt(walk, i, count);
      line := lines[walk % lines.Length];
    }

    lemma LineAt(walk: nat, i: nat, count: nat)
      requires Valid() && count == Min(|added|, lines.Length) && i < count
      requires walk == (if full then next else 0) + i
      ensures 0 <= walk % lines.Length < lines.Length
      ensures lines[walk % lines.Length] == added[|added| - count + i]
    {
      Division(walk, lines.Length);
      IndexOfLine(|added|, lines.Length, i, count);
      assert |added| - count + i < |added|;
    }
  }

  function Min(a: int, b: int): int {
    if a < b then a else b
  }

  lemma NextIndex(n: nat, size: nat)
    requires size > 0
    ensures (n % size + 1) % size == (n + 1) % size
    ensures (n + 1) % size == 0 ==> n + 1 >= size
    ensures n + 1 == size ==> (n + 1) % size == 0
  {
    Division(n, size);
    var q, r := n / size, n % size;
    Congruent(q, r + 1, size);
    BelowIsItself(n + 1, size);
    Multiple(1, 0, size);
  }

  lemma BelowIsItself(n: nat, size: nat)
    requires size > 0
    ensures n < size ==> n % size == n
  {
  }

  lemma Multiple(q: int, r: int, size: nat)
    requires 0 <= r < size
    ensures (q * size + r) % size == r
  {
    var x := q * size + r;
    var q', r' := x / size, x % size;
    assert x == q' * size + r';
    Distribute(q - q', q', size);
    SmallMultipleIsZero(q - q', size);
  }

  /** Whole turns do not matter. */
  lemma Congruent(q: int, x: nat, size: nat)
    requires size > 0
    ensures (q * size + x) % size == x % size
  {
    Division(x, size);
    Distribute(q, x / size, size);
    Multiple(q + x / size, x % size, size);
  }

  /** Two positions less than a whole turn apart have different indices. */
  lemma ApartInWindow(j: nat, k: nat, size: nat)
    requires size > 0 && j < k < j + size
    ensures j % size != k % size
  {
    Division(j, size);
    Division(k, size);
    if j % size == k % size {
      Distribute(k / size - j / size, j / size, size);
      SmallMultipleIsZero(k / size - j / size, size);
    }
  }

  /** The i-th oldest retained line is where the walk from the oldest one finds it. */
  lemma IndexOfLine(n: nat, size: nat, i: nat, count: nat)
    requires size > 0 && count == (if n < size then n else size) && i < count
    ensures ((if n >= size then n % size else 0) + i) % size == (n - count + i) % size
  {
    if n >= size {
      Division(n, size);
      Distribute(n / size - 1, 1, size);
      Congruent(n / size - 1, n % size + i, size);
    }
  }
}
