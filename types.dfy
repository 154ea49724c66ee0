/**
 * The record store: work orders ("O.S.") and the database value
 * `{ ultimo_numero, historico }`, with the store invariant and the sort by id that
 * every component uses (`sort((a, b) => a.os - b.os)`).
 */
module Types {
  import opened Wrappers

  /** One work order, `OSHistoryItem`. */
  datatype WorkOrder = WorkOrder(
    os: int,
    data: string,
    cliente: string,
    telefone: string,
    impressora: string,
    orcamento: string,
    valor: string,
    obs: string,
    status: string)

  /** The database, `Database`: the last allocated number and the record list. */
  datatype Store = Store(ultimoNumero: int, historico: seq<WorkOrder>)

  /** The counter every component falls back to when no record exists. */
  const InitialCounter: int := 3825

  const DefaultStore: Store := Store(InitialCounter, [])

  /** `ScanResult`: what a scan hands back to the renderer. */
  datatype ScanReply = ScanReply(success: bool, data: Option<Store>)

  // ---------------------------------------------------------------------------------------
  // Invariant

  predicate UniqueIds(h: seq<WorkOrder>) {
    forall i, j | 0 <= i < j < |h| :: h[i].os != h[j].os
  }

  predicate IdsAtMost(h: seq<WorkOrder>, bound: int) {
    forall i | 0 <= i < |h| :: h[i].os <= bound
  }

  /** Ids are unique and the counter is at least every id, so `ultimoNumero + 1` is fresh. */
  predicate Valid(s: Store) {
    UniqueIds(s.historico) && IdsAtMost(s.historico, s.ultimoNumero)
  }

  function Ids(h: seq<WorkOrder>): set<int> {
    set i | 0 <= i < |h| :: h[i].os
  }

  predicate SortedById(h: seq<WorkOrder>) {
    forall i, j | 0 <= i < j < |h| :: h[i].os <= h[j].os
  }

  // ---------------------------------------------------------------------------------------
  // Sorting by id: a stable insertion sort

  /** Inserts `x` into `h` after every record whose id is at most `x.os`. */
  function InsertById(h: seq<WorkOrder>, x: WorkOrder): (r: seq<WorkOrder>)
    requires SortedById(h)
    ensures SortedById(r)
    ensures multiset(r) == multiset(h) + multiset{x}
    ensures forall y | y in r :: y == x || y in h
  {
    if h == [] then [x]
    else if h[|h| - 1].os <= x.os then h + [x]
    else
      var front := h[..|h| - 1];
      var last := h[|h| - 1];
      assert h == front + [last];
      var r' := InsertById(front, x);
      assert forall y | y in r' :: y.os <= last.os;
      SortedSnoc(r', last);
      r' + [last]
  }

  /** Appending a record whose id is at least every id keeps the order. */
  lemma SortedSnoc(h: seq<WorkOrder>, z: WorkOrder)
    requires SortedById(h) && forall y | y in h :: y.os <= z.os
    ensures SortedById(h + [z])
  {
    forall i, j | 0 <= i < j < |h| + 1
      ensures (h + [z])[i].os <= (h + [z])[j].os
    {
      if j == |h| {
        assert h[i] in h;
      }
    }
  }

  /** `[...h].sort((a, b) => a.os - b.os)`: ascending by id and a permutation of `h`. */
  function SortById(h: seq<WorkOrder>): (r: seq<WorkOrder>)
    ensures SortedById(r)
    ensures multiset(r) == multiset(h)
  {
    if h == [] then []
    else
      assert h == h[..|h| - 1] + [h[|h| - 1]];
      InsertById(SortById(h[..|h| - 1]), h[|h| - 1])
  }

  lemma IdsSnoc(h: seq<WorkOrder>, x: WorkOrder)
    ensures Ids(h + [x]) == Ids(h) + {x.os}
  {
    var h' := h + [x];
    assert forall i | 0 <= i < |h| :: h'[i] == h[i];
    assert h'[|h|] == x;
  }

  lemma IdsUpdate(h: seq<WorkOrder>, k: nat, x: WorkOrder)
    requires k < |h| && h[k].os == x.os
    ensures Ids(h[k := x]) == Ids(h)
  {
    var h' := h[k := x];
    assert forall i | 0 <= i < |h| :: h'[i].os == h[i].os;
  }

  /** The ids of two lists put together are the ids of each. */
  lemma IdsConcat(a: seq<WorkOrder>, b: seq<WorkOrder>)
    ensures Ids(a + b) == Ids(a) + Ids(b)
  {
    forall x | x in Ids(a + b) ensures x in Ids(a) + Ids(b) {
      var k :| 0 <= k < |a + b| && (a + b)[k].os == x;
      if k < |a| { assert (a + b)[k] == a[k]; } else { assert (a + b)[k] == b[k - |a|]; }
    }
    forall x | x in Ids(a) + Ids(b) ensures x in Ids(a + b) {
      if x in Ids(a) {
        var k :| 0 <= k < |a| && a[k].os == x;
        assert (a + b)[k] == a[k];
      } else {
        var k :| 0 <= k < |b| && b[k].os == x;
        assert (a + b)[|a| + k] == b[k];
      }
    }
  }

  lemma IdsOfPermutation(a: seq<WorkOrder>, b: seq<WorkOrder>)
    requires multiset(a) == multiset(b)
    ensures Ids(a) == Ids(b)
  {
    forall id | id in Ids(a) ensures id in Ids(b) {
      var i :| 0 <= i < |a| && a[i].os == id;
      InPermutation(a, b, i);
    }
    forall id | id in Ids(b) ensures id in Ids(a) {
      var i :| 0 <= i < |b| && b[i].os == id;
      InPermutation(b, a, i);
    }
  }

  // ---------------------------------------------------------------------------------------
  // Facts about permutations

  /** In a list with unique ids every record occurs at most once. */
  lemma {:induction false} UniqueIdsCountOne(s: seq<WorkOrder>, x: WorkOrder)
    requires UniqueIds(s)
    ensures multiset(s)[x] <= 1
  {
    if s != [] {
      var front, last := s[..|s| - 1], s[|s| - 1];
      assert s == front + [last];
      UniqueIdsCountOne(front, x);
      if last == x {
        assert forall k | 0 <= k < |front| :: front[k] != x by {
          forall k | 0 <= k < |front| ensures front[k] != x {
            assert front[k].os == s[k].os != s[|s| - 1].os;
          }
        }
        assert x !in multiset(front);
      }
    }
  }

  /** Two positions of a list whose elements occur at most once hold different records. */
  lemma DistinctOfCountOne(s: seq<WorkOrder>, i: nat, j: nat)
    requires i < j < |s|
    requires multiset(s)[s[i]] <= 1
    ensures s[i] != s[j]
  {
    assert s[..j + 1] == s[..j] + [s[j]];
    assert s == s[..j + 1] + s[j + 1..];
    assert s[..j][i] == s[i];
    assert multiset(s[..j])[s[i]] >= 1;
    assert multiset(s)[s[i]] >= multiset(s[..j])[s[i]] + (if s[j] == s[i] then 1 else 0);
  }

  /** A permutation of a record list with unique ids has unique ids. */
  lemma UniqueIdsOfPermutation(a: seq<WorkOrder>, b: seq<WorkOrder>)
    requires multiset(a) == multiset(b) && UniqueIds(b)
    ensures UniqueIds(a)
  {
    forall i, j | 0 <= i < j < |a| ensures a[i].os != a[j].os {
      UniqueIdsCountOne(b, a[i]);
      DistinctOfCountOne(a, i, j);
      assert a[i] in multiset(b) && a[j] in multiset(b);
      var p :| 0 <= p < |b| && b[p] == a[i];
      var q :| 0 <= q < |b| && b[q] == a[j];
      if p < q {
        assert b[p].os != b[q].os;
      } else {
        assert b[q].os != b[p].os;
      }
    }
  }

  /** The records of a permutation are those of the original. */
  lemma InPermutation(a: seq<WorkOrder>, b: seq<WorkOrder>, i: nat)
    requires multiset(a) == multiset(b) && i < |a|
    ensures exists k :: 0 <= k < |b| && b[k] == a[i]
  {
    assert a[i] in multiset(b);
  }
}
