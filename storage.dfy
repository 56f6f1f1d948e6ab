/**
 * The history list of src/utils/storage.ts as pure list operations.  The
 * localStorage writes are left out; the fresh id and the timestamp that
 * addHistory draws from `Date.now()` and `Math.random()` are parameters.
 */
module Storage {
  import Format
  import opened MinMax

  /** The form's inputs as saved. */
  datatype LastInput = LastInput(amount: string, people: int, low: int, high: int)

  /** `LastInput & { id, createdAt, total }`. */
  datatype HistoryItem = HistoryItem(
    amount: string,
    people: int,
    low: int,
    high: int,
    id: string,
    createdAt: int,
    total: int)

  /** How many entries the history keeps (`slice(0, 5)`). */
  const HistoryLimit: nat := 5

  /** The entry addHistory records for `input`. */
  function NewItem(input: LastInput, id: string, createdAt: int): HistoryItem
  {
    HistoryItem(input.amount, input.people, input.low, input.high, id, createdAt,
                Format.ParseDigits(input.amount))
  }

  /** `[next, ...items].slice(0, 5)`: the new entry first, at most five in all. */
  function AddHistory(items: seq<HistoryItem>, input: LastInput, id: string, createdAt: int)
    : (r: seq<HistoryItem>)
    ensures |r| == Min(|items| + 1, HistoryLimit)
    ensures r[0].amount == input.amount && r[0].people == input.people
    ensures r[0].low == input.low && r[0].high == input.high
    ensures r[0].id == id && r[0].createdAt == createdAt
    ensures r[0].total == Format.ParseDigits(input.amount)
    ensures r[1..] == items[..Min(|items|, HistoryLimit - 1)]
  {
    ([NewItem(input, id, createdAt)] + items)[..Min(|items| + 1, HistoryLimit)]
  }

  /** `items.filter((item) => item.id !== id)`. */
  function RemoveHistory(items: seq<HistoryItem>, id: string): (r: seq<HistoryItem>)
    ensures |r| <= |items|
    ensures forall k :: 0 <= k < |r| ==> r[k].id != id
    ensures forall x :: x in r <==> x in items && x.id != id
  {
    if items == [] then []
    else if items[0].id != id then [items[0]] + RemoveHistory(items[1..], id)
    else RemoveHistory(items[1..], id)
  }

  /** clearHistory: the history becomes empty. */
  function ClearHistory(): (r: seq<HistoryItem>)
    ensures |r| == 0
  {
    []
  }

  /** Removal keeps order: removing from a concatenation removes from each part. */
  lemma {:induction false} RemoveHistoryConcat(a: seq<HistoryItem>, b: seq<HistoryItem>, id: string)
    ensures RemoveHistory(a + b, id) == RemoveHistory(a, id) + RemoveHistory(b, id)
  {
    if a == [] {
      assert a + b == b;
    } else {
      assert (a + b)[1..] == a[1..] + b;
      RemoveHistoryConcat(a[1..], b, id);
    }
  }

  /** Removing an id no entry has leaves the history unchanged. */
  lemma {:induction false} RemoveHistoryAbsent(items: seq<HistoryItem>, id: string)
    requires forall k :: 0 <= k < |items| ==> items[k].id != id
    ensures RemoveHistory(items, id) == items
  {
    if items != [] {
      RemoveHistoryAbsent(items[1..], id);
      assert items == [items[0]] + items[1..];
    }
  }

  /** Removing twice is removing once. */
  lemma RemoveHistoryIdempotent(items: seq<HistoryItem>, id: string)
    ensures RemoveHistory(RemoveHistory(items, id), id) == RemoveHistory(items, id)
  {
    RemoveHistoryAbsent(RemoveHistory(items, id), id);
  }

  /** The history never holds more than five entries. */
  lemma AddHistoryBounded(items: seq<HistoryItem>, input: LastInput, id: string, createdAt: int)
    ensures |AddHistory(items, input, id, createdAt)| <= HistoryLimit
    ensures |items| < HistoryLimit ==> AddHistory(items, input, id, createdAt)[1..] == items
  {
  }

  /**
   * Deleting the entry just added (under an id no other entry has) gives
   * back the history as addHistory truncated it.
   */
  lemma AddThenRemove(items: seq<HistoryItem>, input: LastInput, id: string, createdAt: int)
    requires forall k :: 0 <= k < |items| ==> items[k].id != id
    ensures RemoveHistory(AddHistory(items, input, id, createdAt), id)
            == items[..Min(|items|, HistoryLimit - 1)]
  {
    var r := AddHistory(items, input, id, createdAt);
    var kept := items[..Min(|items|, HistoryLimit - 1)];
    assert r == [r[0]] + kept;
    RemoveHistoryConcat([r[0]], kept, id);
    assert RemoveHistory([r[0]], id) == [] by {
      assert [r[0]][1..] == [];
    }
    RemoveHistoryAbsent(kept, id);
  }
}
