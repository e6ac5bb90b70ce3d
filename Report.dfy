/**
 * The report `SaveResultsToFileAsync` writes: for each entry of the table, in the
 * table's enumeration order, the key on its own line, one line per URL indented by
 * four spaces, then an empty line. The file is modelled as its sequence of lines.
 */
module Report {
  import opened Wrappers
  import opened Aggregation

  const Indent: string := "    "

  /** The lines `$"    {fetchedUrl}"` for each URL of a list, in list order. */
  function Indented(urls: seq<string>): (r: seq<string>)
    ensures |r| == |urls|
  {
    seq(|urls|, i requires 0 <= i < |urls| => Indent + urls[i])
  }

  /** One key's block: the key line, the indented URL lines, the empty line. */
  function Block(key: string, urls: seq<string>): seq<string> {
    [key] + Indented(urls) + [""]
  }

  /** `order` lists every key of `keys` exactly once: an enumeration of the table. */
  ghost predicate IsEnumeration(order: seq<string>, keys: set<string>) {
    && (forall i, j :: 0 <= i < j < |order| ==> order[i] != order[j])
    && (forall k :: k in order <==> k in keys)
  }

  /** The report for the keys of `order`, block after block. */
  function Render(table: Table, order: seq<string>): (r: seq<string>)
    requires forall k :: k in order ==> k in table
    ensures forall k :: k in order ==> k in r
  {
    if order == [] then []
    else Block(order[0], table[order[0]]) + Render(table, order[1..])
  }

  /** Lines a block takes: the key line, one per URL, the blank line. */
  function LineCount(table: Table, order: seq<string>): nat
    requires forall k :: k in order ==> k in table
  {
    if order == [] then 0
    else 2 + |table[order[0]]| + LineCount(table, order[1..])
  }

  /** Rendering one more key at the end adds its block at the end. */
  lemma {:induction false} RenderSnoc(table: Table, order: seq<string>, key: string)
    requires forall k :: k in order ==> k in table
    requires key in table
    ensures Render(table, order + [key]) == Render(table, order) + Block(key, table[key])
  {
    if order == [] {
      assert order + [key] == [key];
    } else {
      assert (order + [key])[1..] == order[1..] + [key];
      RenderSnoc(table, order[1..], key);
    }
  }

  /** The report has, for each key, 2 lines plus one per URL. */
  lemma {:induction false} RenderLength(table: Table, order: seq<string>)
    requires forall k :: k in order ==> k in table
    ensures |Render(table, order)| == LineCount(table, order)
  {
    if order != [] {
      RenderLength(table, order[1..]);
    }
  }

  /** Taking one key out of an enumeration takes its lines out of the count. */
  lemma {:induction false} LineCountRemove(table: Table, order: seq<string>, i: nat)
    requires forall k :: k in order ==> k in table
    requires i < |order|
    ensures LineCount(table, order) ==
            2 + |table[order[i]]| + LineCount(table, order[..i] + order[i + 1..])
  {
    if i > 0 {
      var rest := order[1..];
      LineCountRemove(table, rest, i - 1);
      assert order[..i] + order[i + 1..] == [order[0]] + (rest[..i - 1] + rest[i..]);
    } else {
      assert order[..i] + order[i + 1..] == order[1..];
    }
  }

  /** Removing the key at position `i` from an enumeration enumerates the remaining keys. */
  lemma EnumerationRemove(order: seq<string>, keys: set<string>, i: nat)
    requires IsEnumeration(order, keys) && i < |order|
    ensures IsEnumeration(order[..i] + order[i + 1..], keys - {order[i]})
  {
    var rest := order[..i] + order[i + 1..];
    forall k | k in rest ensures k in keys - {order[i]} {
      var j :| 0 <= j < |rest| && rest[j] == k;
      if j < i { assert order[j] == k; } else { assert order[j + 1] == k; }
    }
    forall k | k in keys - {order[i]} ensures k in rest {
      var j :| 0 <= j < |order| && order[j] == k;
      if j < i { assert rest[j] == k; } else { assert rest[j - 1] == k; }
    }
    forall a, b | 0 <= a < b < |rest| ensures rest[a] != rest[b] {
      var a', b' := if a < i then a else a + 1, if b < i then b else b + 1;
      assert rest[a] == order[a'] && rest[b] == order[b'];
    }
  }

  /** An enumeration has exactly one position per key. */
  lemma {:induction false} EnumerationLength(order: seq<string>, keys: set<string>)
    requires IsEnumeration(order, keys)
    ensures |order| == |keys|
    decreases |order|
  {
    if order == [] {
      assert keys == {};
    } else {
      EnumerationRemove(order, keys, 0);
      assert order[..0] + order[1..] == order[1..];
      EnumerationLength(order[1..], keys - {order[0]});
    }
  }

  /**
   * The number of lines does not depend on the order the table is enumerated in:
   * it is the sum over the keys of 2 plus the length of the key's list.
   */
  lemma {:induction false} LineCountOrderFree(table: Table, o1: seq<string>, o2: seq<string>, keys: set<string>)
    requires keys <= table.Keys
    requires IsEnumeration(o1, keys) && IsEnumeration(o2, keys)
    ensures LineCount(table, o1) == LineCount(table, o2)
    decreases |o1|
  {
    EnumerationLength(o1, keys);
    EnumerationLength(o2, keys);
    if o1 != [] {
      var key := o1[0];
      assert key in o2;
      var i :| 0 <= i < |o2| && o2[i] == key;
      LineCountRemove(table, o2, i);
      EnumerationRemove(o2, keys, i);
      EnumerationRemove(o1, keys, 0);
      assert o1[..0] + o1[1..] == o1[1..];
      LineCountOrderFree(table, o1[1..], o2[..i] + o2[i + 1..], keys - {key});
    }
  }

  /**
   * Whatever order the table's keys are written in, the report has the same number
   * of lines: 2 per key plus 1 per stored URL.
   */
  lemma ReportLength(table: Table, o1: seq<string>, o2: seq<string>)
    requires IsEnumeration(o1, table.Keys) && IsEnumeration(o2, table.Keys)
    ensures |Render(table, o1)| == |Render(table, o2)| == LineCount(table, o1)
  {
    RenderLength(table, o1);
    RenderLength(table, o2);
    LineCountOrderFree(table, o1, o2, table.Keys);
  }

  /** Whether a line is one of the indented URL lines. */
  predicate IsIndented(line: string) {
    |line| >= |Indent| && line[..|Indent|] == Indent
  }

  /** The indented lines at the front, without their indentation, and the lines after them. */
  function TakeIndented(lines: seq<string>): (r: (seq<string>, seq<string>))
    ensures |r.1| <= |lines|
  {
    if lines != [] && IsIndented(lines[0]) then
      var (urls, rest) := TakeIndented(lines[1..]);
      ([lines[0][|Indent|..]] + urls, rest)
    else ([], lines)
  }

  /** Reads a report back into its (key, list) entries; `None` for lines not in the layout. */
  function ParseReport(lines: seq<string>): Option<seq<(string, seq<string>)>>
    decreases |lines|
  {
    if lines == [] then Some([])
    else
      var (urls, rest) := TakeIndented(lines[1..]);
      if rest == [] || rest[0] != "" then None
      else
        match ParseReport(rest[1..])
        case None => None
        case Some(entries) => Some([(lines[0], urls)] + entries)
  }

  /** The entries of the table in the order given. */
  function Entries(table: Table, order: seq<string>): seq<(string, seq<string>)>
    requires forall k :: k in order ==> k in table
  {
    seq(|order|, i requires 0 <= i < |order| => (order[i], table[order[i]]))
  }

  /** The URL lines of a block end at its empty line, whatever the URLs are. */
  lemma {:induction false} TakeIndentedBlock(urls: seq<string>, tail: seq<string>)
    ensures TakeIndented(Indented(urls) + [""] + tail) == (urls, [""] + tail)
  {
    var lines := Indented(urls) + [""] + tail;
    if urls == [] {
      assert lines == [""] + tail;
    } else {
      assert lines[0] == Indent + urls[0];
      assert (Indent + urls[0])[..|Indent|] == Indent;
      assert (Indent + urls[0])[|Indent|..] == urls[0];
      assert lines[1..] == Indented(urls[1..]) + [""] + tail;
      TakeIndentedBlock(urls[1..], tail);
      assert [urls[0]] + urls[1..] == urls;
    }
  }

  /**
   * The layout is unambiguous: reading a report back gives every key with its list,
   * in the order written, whatever the keys and URLs are.
   */
  lemma {:induction false} ParseRender(table: Table, order: seq<string>)
    requires forall k :: k in order ==> k in table
    ensures ParseReport(Render(table, order)) == Some(Entries(table, order))
  {
    if order != [] {
      var key := order[0];
      var rest := Render(table, order[1..]);
      var lines := Render(table, order);
      assert lines == [key] + (Indented(table[key]) + [""] + rest);
      assert lines[1..] == Indented(table[key]) + [""] + rest;
      TakeIndentedBlock(table[key], rest);
      assert ([""] + rest)[1..] == rest;
      ParseRender(table, order[1..]);
      assert Entries(table, order) == [(key, table[key])] + Entries(table, order[1..]);
    }
  }

  /**
   * A table that never holds an empty list gives a report in which every key is
   * followed by at least one URL line: no key line sits directly above the blank line.
   */
  lemma ReportBlocksNonEmpty(table: Table, order: seq<string>)
    requires forall k :: k in order ==> k in table
    requires NoEmptyLists(table)
    ensures ParseReport(Render(table, order)).Some?
    ensures forall e :: e in ParseReport(Render(table, order)).value ==> e.1 != []
  {
    ParseRender(table, order);
    var entries := Entries(table, order);
    forall e | e in entries ensures e.1 != [] {
      var i :| 0 <= i < |entries| && entries[i] == e;
      assert e.1 == table[order[i]];
    }
  }
}
