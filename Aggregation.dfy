/**
 * The results table: seed URL to the ordered list of URLs found on it.
 * `Appended` is one `AddUrlToDictionary` call (`AddOrUpdate` creating a singleton
 * list or adding to the end of the existing one); `AppendAll` is one task's loop
 * over its fetched URLs; `Aggregate` is the tasks run one after another.
 */
module Aggregation {

  type Table = map<string, seq<string>>

  /** The list stored under `key`, or the empty list when the key is absent. */
  function ListOf(table: Table, key: string): seq<string> {
    if key in table then table[key] else []
  }

  /** Every key holds at least one URL: keys are only ever created by an append. */
  ghost predicate NoEmptyLists(table: Table) {
    forall key :: key in table ==> table[key] != []
  }

  /** `AddUrlToDictionary(key, url)` on the table. */
  function Appended(table: Table, key: string, url: string): (r: Table)
    ensures r.Keys == table.Keys + {key}
    ensures key !in table ==> r[key] == [url]
    ensures key in table ==> |r[key]| == |table[key]| + 1 && r[key][..|table[key]|] == table[key]
                             && r[key][|table[key]|] == url
    ensures forall other :: other != key ==> ListOf(r, other) == ListOf(table, other)
  {
    table[key := ListOf(table, key) + [url]]
  }

  /** The loop `foreach (fetchedUrl in fetchedUrls) AddUrlToDictionary(key, fetchedUrl)`. */
  function AppendAll(table: Table, key: string, urls: seq<string>): (r: Table)
    ensures r.Keys == if urls == [] then table.Keys else table.Keys + {key}
    ensures ListOf(r, key) == ListOf(table, key) + urls
    ensures forall other :: other != key ==> ListOf(r, other) == ListOf(table, other)
    decreases |urls|
  {
    if urls == [] then table
    else
      var front, last := urls[..|urls| - 1], urls[|urls| - 1];
      assert urls == front + [last];
      assert ListOf(table, key) + urls == (ListOf(table, key) + front) + [last];
      Appended(AppendAll(table, key, front), key, last)
  }

  /** Appending the first `j + 1` URLs is appending the first `j` and then URL `j`. */
  lemma AppendAllStep(table: Table, key: string, urls: seq<string>, j: nat)
    requires j < |urls|
    ensures AppendAll(table, key, urls[..j + 1]) == Appended(AppendAll(table, key, urls[..j]), key, urls[j])
  {
    assert urls[..j + 1][..j] == urls[..j];
  }

  /** One crawl task: the seed it ran for and the URLs it found, in the order found. */
  datatype Task = Task(seed: string, found: seq<string>)

  /** Tasks run in sequence: each appends what it found under its seed. */
  function Aggregate(table: Table, tasks: seq<Task>): (r: Table)
    ensures table.Keys <= r.Keys
    decreases |tasks|
  {
    if tasks == [] then table
    else
      var n := |tasks| - 1;
      AppendAll(Aggregate(table, tasks[..n]), tasks[n].seed, tasks[n].found)
  }

  /** What one task contributes to `key`. */
  function Contribution(key: string, task: Task): seq<string> {
    if task.seed == key then task.found else []
  }

  /** Everything the tasks for `key` found, concatenated in task order. */
  function Gathered(key: string, tasks: seq<Task>): seq<string>
    decreases |tasks|
  {
    if tasks == [] then []
    else
      var n := |tasks| - 1;
      Gathered(key, tasks[..n]) + Contribution(key, tasks[n])
  }

  /** Appending preserves the non-empty-lists invariant. */
  lemma {:induction false} AggregateNoEmptyLists(table: Table, tasks: seq<Task>)
    requires NoEmptyLists(table)
    ensures NoEmptyLists(Aggregate(table, tasks))
  {
    if tasks != [] {
      var n := |tasks| - 1;
      AggregateNoEmptyLists(table, tasks[..n]);
      var before := Aggregate(table, tasks[..n]);
      var after := AppendAll(before, tasks[n].seed, tasks[n].found);
      forall key | key in after ensures after[key] != [] {
        if key == tasks[n].seed {
          assert ListOf(after, key) == ListOf(before, key) + tasks[n].found;
        } else {
          assert ListOf(after, key) == ListOf(before, key) && key in before;
        }
      }
    }
  }

  /** Each key's final list is its initial list followed by everything its tasks found, in task order. */
  lemma {:induction false} AggregateList(table: Table, tasks: seq<Task>, key: string)
    ensures ListOf(Aggregate(table, tasks), key) == ListOf(table, key) + Gathered(key, tasks)
  {
    if tasks != [] {
      var n := |tasks| - 1;
      var initial, g, c := ListOf(table, key), Gathered(key, tasks[..n]), Contribution(key, tasks[n]);
      calc {
        ListOf(Aggregate(table, tasks), key);
        { AggregateLast(table, tasks, key); }
        ListOf(Aggregate(table, tasks[..n]), key) + c;
        { AggregateList(table, tasks[..n], key); }
        (initial + g) + c;
        initial + (g + c);
        initial + Gathered(key, tasks);
      }
    }
  }

  /** The last task adds its contribution to the end of each key's list. */
  lemma AggregateLast(table: Table, tasks: seq<Task>, key: string)
    requires tasks != []
    ensures ListOf(Aggregate(table, tasks), key)
            == ListOf(Aggregate(table, tasks[..|tasks| - 1]), key) + Contribution(key, tasks[|tasks| - 1])
  {
  }

  /** A key is present at the end exactly when it was present before or some task for it found something. */
  lemma {:induction false} AggregateKey(table: Table, tasks: seq<Task>, key: string)
    ensures key in Aggregate(table, tasks) <==> key in table || Gathered(key, tasks) != []
  {
    if tasks != [] {
      var n := |tasks| - 1;
      AggregateKey(table, tasks[..n], key);
    }
  }

  /** Nothing is gathered for a key exactly when each of its tasks found nothing. */
  lemma {:induction false} GatheredEmpty(key: string, tasks: seq<Task>)
    ensures Gathered(key, tasks) == [] <==>
            forall i :: 0 <= i < |tasks| && tasks[i].seed == key ==> tasks[i].found == []
  {
    if tasks != [] {
      var n := |tasks| - 1;
      GatheredEmpty(key, tasks[..n]);
      assert Gathered(key, tasks) == Gathered(key, tasks[..n]) + Contribution(key, tasks[n]);
      assert forall i :: 0 <= i < n ==> tasks[..n][i] == tasks[i];
    }
  }

  /** A key handled by exactly one task gathers exactly that task's list. */
  lemma {:induction false} GatheredSingle(key: string, tasks: seq<Task>, i: nat)
    requires i < |tasks| && tasks[i].seed == key
    requires forall j :: 0 <= j < |tasks| && j != i ==> tasks[j].seed != key
    ensures Gathered(key, tasks) == tasks[i].found
  {
    var n := |tasks| - 1;
    GatheredEmpty(key, tasks[..n]);
    if i < n {
      GatheredSingle(key, tasks[..n], i);
    }
  }

  /** One more task at the end is one more `AppendAll`. */
  lemma AggregateSnoc(table: Table, tasks: seq<Task>, task: Task)
    ensures Aggregate(table, tasks + [task]) == AppendAll(Aggregate(table, tasks), task.seed, task.found)
  {
    assert (tasks + [task])[..|tasks|] == tasks;
  }

  /** The indexed form of `AggregateSnoc` a loop over the tasks needs: the first `i + 1` tasks are the first `i`, then task `i`. */
  lemma AggregateStep(table: Table, tasks: seq<Task>, i: nat)
    requires i < |tasks|
    ensures Aggregate(table, tasks[..i + 1]) == AppendAll(Aggregate(table, tasks[..i]), tasks[i].seed, tasks[i].found)
  {
    assert tasks[..i + 1] == tasks[..i] + [tasks[i]];
    AggregateSnoc(table, tasks[..i], tasks[i]);
  }

  /** Running two batches of tasks one after the other is running their concatenation. */
  lemma {:induction false} AggregateConcat(table: Table, t1: seq<Task>, t2: seq<Task>)
    ensures Aggregate(table, t1 + t2) == Aggregate(Aggregate(table, t1), t2)
    decreases |t2|
  {
    if t2 == [] {
      assert t1 + t2 == t1;
    } else {
      var n := |t2| - 1;
      assert t2 == t2[..n] + [t2[n]];
      assert t1 + t2 == (t1 + t2[..n]) + [t2[n]];
      AggregateConcat(table, t1, t2[..n]);
      AggregateSnoc(table, t1 + t2[..n], t2[n]);
      AggregateSnoc(Aggregate(table, t1), t2[..n], t2[n]);
    }
  }

  /** Tables that agree on key membership and on every list are equal. */
  lemma TablesEqual(t1: Table, t2: Table)
    requires forall key :: key in t1 <==> key in t2
    requires forall key :: ListOf(t1, key) == ListOf(t2, key)
    ensures t1 == t2
  {
    forall key | key in t1 ensures t1[key] == t2[key] {
      assert ListOf(t1, key) == ListOf(t2, key);
    }
  }

  /** Gathering over a concatenation of task batches concatenates what each batch gathers. */
  lemma {:induction false} GatheredConcat(key: string, t1: seq<Task>, t2: seq<Task>)
    ensures Gathered(key, t1 + t2) == Gathered(key, t1) + Gathered(key, t2)
    decreases |t2|
  {
    if t2 == [] {
      assert t1 + t2 == t1;
    } else {
      var n := |t2| - 1;
      ConcatPrefix(t1, t2, n);
      GatheredConcat(key, t1, t2[..n]);
      var c := Contribution(key, t2[n]);
      assert Gathered(key, t1 + t2) == Gathered(key, t1 + t2[..n]) + c;
      assert Gathered(key, t2) == Gathered(key, t2[..n]) + c;
    }
  }

  /** The first `|t1| + n` tasks of `t1 + t2` are `t1` followed by the first `n` of `t2`. */
  lemma ConcatPrefix(t1: seq<Task>, t2: seq<Task>, n: nat)
    requires n < |t2|
    ensures (t1 + t2)[..|t1| + n] == t1 + t2[..n] && (t1 + t2)[|t1| + n] == t2[n]
  {
  }

  /** Two tasks gather their contributions in order. */
  lemma GatheredPair(key: string, x: Task, y: Task)
    ensures Gathered(key, [x, y]) == Contribution(key, x) + Contribution(key, y)
  {
    assert [x, y][..1] == [x];
    assert [x][..0] == [];
    assert Gathered(key, [x]) == Contribution(key, x);
  }

  /** Swapping two adjacent tasks for different seeds leaves what each key gathers unchanged. */
  lemma GatheredSwap(key: string, tasks: seq<Task>, i: nat)
    requires i + 1 < |tasks| && tasks[i].seed != tasks[i + 1].seed
    ensures Gathered(key, tasks[..i] + [tasks[i + 1], tasks[i]] + tasks[i + 2..]) == Gathered(key, tasks)
  {
    var x, y, front, back := tasks[i], tasks[i + 1], tasks[..i], tasks[i + 2..];
    assert tasks == front + [x, y] + back;
    GatheredConcat(key, front + [x, y], back);
    GatheredConcat(key, front, [x, y]);
    GatheredConcat(key, front + [y, x], back);
    GatheredConcat(key, front, [y, x]);
    GatheredPair(key, x, y);
    GatheredPair(key, y, x);
    var cx, cy := Contribution(key, x), Contribution(key, y);
    assert cx == [] || cy == [];
    assert cx + cy == cy + cx;
  }

  /**
   * Two adjacent tasks for different seeds can run in either order with the same
   * final table: only the relative order of a seed's own tasks matters.
   */
  lemma SwapDistinctTasks(table: Table, tasks: seq<Task>, i: nat)
    requires i + 1 < |tasks| && tasks[i].seed != tasks[i + 1].seed
    ensures Aggregate(table, tasks[..i] + [tasks[i + 1], tasks[i]] + tasks[i + 2..]) == Aggregate(table, tasks)
  {
    var swapped := tasks[..i] + [tasks[i + 1], tasks[i]] + tasks[i + 2..];
    var before, after := Aggregate(table, tasks), Aggregate(table, swapped);
    forall key ensures (key in before <==> key in after) && ListOf(before, key) == ListOf(after, key) {
      GatheredSwap(key, tasks, i);
      AggregateKey(table, tasks, key);
      AggregateKey(table, swapped, key);
      AggregateList(table, tasks, key);
      AggregateList(table, swapped, key);
    }
    TablesEqual(before, after);
  }
}
