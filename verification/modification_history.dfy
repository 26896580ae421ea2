/** The modification history: a container that records entries in order,
    can be cleared and renders itself as text, and the key-value `History`
    entry it holds. */
module ModificationHistory {

  import opened Wrappers
  import opened Text

  /** `HistoryContainer`: its `history` list. */
  datatype HistoryContainer<T> = HistoryContainer(history: seq<T>)

  function NewContainer<T>(): HistoryContainer<T> {
    HistoryContainer([])
  }

  /** `addHistory`: the entry goes at the end; earlier entries are untouched. */
  function AddHistory<T>(c: HistoryContainer<T>, entry: T): (r: HistoryContainer<T>)
    ensures |r.history| == |c.history| + 1
    ensures r.history[..|c.history|] == c.history
    ensures r.history[|c.history|] == entry
  {
    HistoryContainer(c.history + [entry])
  }

  /** `getHistory`: the recorded entries, as a snapshot of the list. */
  function GetHistory<T>(c: HistoryContainer<T>): seq<T> {
    c.history
  }

  /** `clearHistory`: afterwards nothing is recorded. */
  function ClearHistory<T>(c: HistoryContainer<T>): (r: HistoryContainer<T>)
    ensures GetHistory(r) == []
  {
    HistoryContainer([])
  }

  /** Adding entries one by one to a container. */
  function AddAll<T>(c: HistoryContainer<T>, entries: seq<T>): HistoryContainer<T>
    decreases |entries|
  {
    if |entries| == 0 then c else AddHistory(AddAll(c, entries[..|entries| - 1]), entries[|entries| - 1])
  }

  /** `getHistory` returns the entries in the order they were added. */
  lemma {:induction false} GetHistoryInInsertionOrder<T>(c: HistoryContainer<T>, entries: seq<T>)
    ensures GetHistory(AddAll(c, entries)) == GetHistory(c) + entries
    decreases |entries|
  {
    if |entries| > 0 {
      var init := entries[..|entries| - 1];
      GetHistoryInInsertionOrder(c, init);
      assert init + [entries[|entries| - 1]] == entries;
    }
  }

  /** Each line followed by a newline, as `__str__`'s loop appends them. */
  function Terminated(lines: seq<string>): string {
    if |lines| == 0 then "" else Terminated(lines[..|lines| - 1]) + lines[|lines| - 1] + "\n"
  }

  lemma {:induction false} TerminatedIsJoinPlusNewline(lines: seq<string>)
    requires |lines| > 0
    ensures Terminated(lines) == Join(lines, "\n") + "\n"
  {
    if |lines| > 1 {
      var init := lines[..|lines| - 1];
      TerminatedIsJoinPlusNewline(init);
      JoinAppend(init, lines[|lines| - 1], "\n");
      assert init + [lines[|lines| - 1]] == lines;
    }
  }

  lemma {:induction false} JoinAppend(parts: seq<string>, last: string, sep: string)
    requires |parts| > 0
    ensures Join(parts + [last], sep) == Join(parts, sep) + sep + last
  {
    if |parts| == 1 {
      assert (parts + [last])[1..] == [last];
    } else {
      JoinAppend(parts[1..], last, sep);
      assert (parts + [last])[1..] == parts[1..] + [last];
    }
  }

  /** `__str__`: "History:", then each entry's text on its own line, with
      outer whitespace stripped. An empty container renders as exactly
      "History:"; otherwise the result is "History:\n" followed by the entry
      texts joined with "\n", without trailing whitespace, and unchanged
      when the last entry's text does not end in whitespace. The entry
      texts are `show` applied to each entry. */
  method ToString<T>(c: HistoryContainer<T>, show: T -> string) returns (s: string)
    ensures |c.history| == 0 ==> s == "History:"
    ensures |c.history| > 0 ==> s == RStrip("History:\n" + Join(Shown(c, show), "\n"))
    ensures |c.history| > 0 && LastShownEndsInText(c, show) ==> s == "History:\n" + Join(Shown(c, show), "\n")
  {
    var lines := Shown(c, show);
    var raw := Render(lines);
    StripRendered(lines);
    s := Strip(raw);
  }

  /** The loop of `__str__` before the final strip: the header line, then
      every line followed by a newline. */
  method Render(lines: seq<string>) returns (s: string)
    ensures s == "History:\n" + Terminated(lines)
  {
    s := "History:\n";
    for i := 0 to |lines|
      invariant s == "History:\n" + Terminated(lines[..i])
    {
      assert lines[..i + 1][..i] == lines[..i];
      assert Terminated(lines[..i + 1]) == Terminated(lines[..i]) + lines[i] + "\n";
      s := s + lines[i] + "\n";
    }
    assert lines[..|lines|] == lines;
  }

  /** What stripping the rendered lines leaves: "History:" alone when there
      are none, otherwise the lines joined after "History:\n", right-stripped,
      and untouched when the last line ends in text. */
  lemma StripRendered(lines: seq<string>)
    ensures |lines| == 0 ==> Strip("History:\n" + Terminated(lines)) == "History:"
    ensures |lines| > 0 ==> Strip("History:\n" + Terminated(lines)) == RStrip("History:\n" + Join(lines, "\n"))
    ensures |lines| > 0 && EndsInText(lines[|lines| - 1]) ==>
      Strip("History:\n" + Terminated(lines)) == "History:\n" + Join(lines, "\n")
  {
    if |lines| == 0 {
      assert "History:\n" + Terminated(lines) == "History:\n";
      StripHeaderAlone();
    } else {
      StripRenderedLines(lines);
      if EndsInText(lines[|lines| - 1]) {
        JoinEndingInTextIsStripped(lines);
      }
    }
  }

  lemma StripRenderedLines(lines: seq<string>)
    requires |lines| > 0
    ensures Strip("History:\n" + Terminated(lines)) == RStrip("History:\n" + Join(lines, "\n"))
  {
    TerminatedIsJoinPlusNewline(lines);
    var text := "History:\n" + Join(lines, "\n");
    assert "History:\n" + Terminated(lines) == text + "\n";
    assert text[0] == 'H';
    StripLastLine(text);
  }

  lemma JoinEndingInTextIsStripped(lines: seq<string>)
    requires |lines| > 0 && EndsInText(lines[|lines| - 1])
    ensures RStrip("History:\n" + Join(lines, "\n")) == "History:\n" + Join(lines, "\n")
  {
    var text := "History:\n" + Join(lines, "\n");
    LastCharOfJoin(lines, "\n");
    var j := Join(lines, "\n");
    assert text[|text| - 1] == j[|j| - 1];
  }

  lemma StripHeaderAlone()
    ensures Strip("History:\n") == "History:"
  {
    StripKeepsLeadingText("History:\n");
    assert "History:\n" == "History:" + "\n";
    RStripTrailingSpace("History:", '\n');
  }

  lemma StripLastLine(text: string)
    requires |text| > 0 && !IsSpace(text[0])
    ensures Strip(text + "\n") == RStrip(text)
  {
    StripKeepsLeadingText(text + "\n");
    RStripTrailingSpace(text, '\n');
  }

  /** A line whose last character is not whitespace. */
  predicate EndsInText(line: string) {
    |line| > 0 && !IsSpace(line[|line| - 1])
  }

  function Shown<T>(c: HistoryContainer<T>, show: T -> string): seq<string> {
    seq(|c.history|, i requires 0 <= i < |c.history| => show(c.history[i]))
  }

  predicate LastShownEndsInText<T>(c: HistoryContainer<T>, show: T -> string) {
    |c.history| > 0 && EndsInText(show(c.history[|c.history| - 1]))
  }

  lemma {:induction false} LastCharOfJoin(parts: seq<string>, sep: string)
    requires |parts| > 0 && |parts[|parts| - 1]| > 0
    ensures var j := Join(parts, sep); var l := parts[|parts| - 1];
      |j| > 0 && j[|j| - 1] == l[|l| - 1]
  {
    if |parts| > 1 {
      LastCharOfJoin(parts[1..], sep);
    }
  }

  /** A `History` entry: the keyword arguments it was built from. */
  datatype History<V> = History(data: map<string, V>)

  /** `History(**kwargs)`: stores each keyword's value under its name. */
  function MakeHistory<V>(kwargs: seq<(string, V)>): (h: History<V>)
    ensures forall k :: k in h.data <==> exists i :: 0 <= i < |kwargs| && kwargs[i].0 == k
    decreases |kwargs|
  {
    if |kwargs| == 0 then History(map[])
    else
      var h := MakeHistory(kwargs[..|kwargs| - 1]);
      var kv := kwargs[|kwargs| - 1];
      History(h.data[kv.0 := kv.1])
  }

  /** `History.__getitem__`: the value stored under `key`; `None` is the
      `KeyError` a missing key raises. */
  function GetItem<V>(h: History<V>, key: string): (r: Option<V>)
    ensures r.Some? <==> key in h.data
    ensures r.Some? ==> r.value == h.data[key]
  {
    if key in h.data then Some(h.data[key]) else None
  }

  /** Keyword names in a call are distinct. */
  predicate DistinctKeys<V>(kwargs: seq<(string, V)>) {
    forall i, j :: 0 <= i < j < |kwargs| ==> kwargs[i].0 != kwargs[j].0
  }

  /** `History(**kw)[k]` is the value passed for `k`, and a name that was
      not passed raises `KeyError`. */
  lemma {:induction false} GetItemReturnsKeyword<V>(kwargs: seq<(string, V)>, key: string)
    requires DistinctKeys(kwargs)
    ensures forall i :: 0 <= i < |kwargs| && kwargs[i].0 == key ==> GetItem(MakeHistory(kwargs), key) == Some(kwargs[i].1)
    ensures (forall i :: 0 <= i < |kwargs| ==> kwargs[i].0 != key) ==> GetItem(MakeHistory(kwargs), key) == None
    decreases |kwargs|
  {
    if |kwargs| > 0 {
      var init := kwargs[..|kwargs| - 1];
      GetItemReturnsKeyword(init, key);
      assert forall i :: 0 <= i < |init| ==> init[i] == kwargs[i];
    }
  }

}
