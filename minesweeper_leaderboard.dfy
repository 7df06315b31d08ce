/** The per-difficulty top-5 leaderboard: the qualification test and the record step run
    when a game is won, the clean-up of the player's name, and the
    `difficulty;player;seconds` line format the leaderboard is saved in and loaded from. */
module MinesweeperLeaderboard {
  import opened JavaLang
  import opened MinesweeperConfig

  /** How many entries a difficulty keeps. */
  const TOP_K: nat := 5
  /** The name recorded when the player gives none. */
  const ANONYMOUS: string := "Anonymous"
  /** The longest player name kept. */
  const NAME_LIMIT: nat := 20
  /** The field separator of a saved line. */
  const SEP: char := ';'

  /** One leaderboard line: who won, and in how many whole seconds. */
  datatype Entry = Entry(name: string, seconds: int)

  /** The leaderboard: difficulty name to its entries. */
  type Board = map<string, seq<Entry>>

  function Get(b: Board, diff: string): seq<Entry>
  {
    if diff in b then b[diff] else []
  }

  // ---------------------------------------------------------------- the stable sort

  predicate SortedBySeconds(s: seq<Entry>)
  {
    forall i, j :: 0 <= i < j < |s| ==> s[i].seconds <= s[j].seconds
  }

  /** The entries of s that took exactly t seconds, in their order in s. */
  function WithTime(s: seq<Entry>, t: int): seq<Entry>
  {
    if s == [] then []
    else WithTime(s[..|s| - 1], t) + (if s[|s| - 1].seconds == t then [s[|s| - 1]] else [])
  }

  /** One step of the sort: e goes after every entry that took no longer than it. */
  function InsertBySeconds(l: seq<Entry>, e: Entry): (r: seq<Entry>)
    ensures |r| == |l| + 1
  {
    if l == [] then [e]
    else if e.seconds < l[|l| - 1].seconds then InsertBySeconds(l[..|l| - 1], e) + [l[|l| - 1]]
    else l + [e]
  }

  /** list.sort(Comparator.comparingInt(e -> e.seconds)): a stable sort, fastest first.
      SortIsStable and SortIsSorted say what it computes. */
  function SortBySeconds(s: seq<Entry>): (r: seq<Entry>)
    ensures |r| == |s|
  {
    if s == [] then [] else InsertBySeconds(SortBySeconds(s[..|s| - 1]), s[|s| - 1])
  }

  /** Where the sort's step puts e in a sorted list: right after the entries that took no
      longer, right before those that took longer. */
  lemma {:induction false} InsertAt(l: seq<Entry>, e: Entry) returns (k: nat)
    requires SortedBySeconds(l)
    ensures k <= |l| && InsertBySeconds(l, e) == l[..k] + [e] + l[k..]
    ensures forall i :: 0 <= i < k ==> l[i].seconds <= e.seconds
    ensures forall i :: k <= i < |l| ==> e.seconds < l[i].seconds
  {
    if l == [] {
      k := 0;
    } else if e.seconds < l[|l| - 1].seconds {
      var init := l[..|l| - 1];
      k := InsertAt(init, e);
      assert l[..k] == init[..k];
      assert l[k..] == init[k..] + [l[|l| - 1]];
    } else {
      k := |l|;
      assert l[..k] == l && l[k..] == [];
    }
  }

  /** Putting e between the entries no slower and those slower keeps a list sorted. */
  lemma SplitInsertSorted(l: seq<Entry>, e: Entry, k: nat)
    requires SortedBySeconds(l) && k <= |l|
    requires forall i :: 0 <= i < k ==> l[i].seconds <= e.seconds
    requires forall i :: k <= i < |l| ==> e.seconds < l[i].seconds
    ensures SortedBySeconds(l[..k] + [e] + l[k..])
  {
    var r := l[..k] + [e] + l[k..];
    forall i, j | 0 <= i < j < |r| ensures r[i].seconds <= r[j].seconds {
      if j < k {
        assert r[i] == l[i] && r[j] == l[j];
      } else if j == k {
        assert r[i] == l[i] && r[j] == e;
      } else if i < k {
        assert r[i] == l[i] && r[j] == l[j - 1];
      } else if i == k {
        assert r[i] == e && r[j] == l[j - 1];
      } else {
        assert r[i] == l[i - 1] && r[j] == l[j - 1];
      }
    }
  }

  lemma LastSplit<T>(s: seq<T>)
    requires s != []
    ensures s[..|s| - 1] + [s[|s| - 1]] == s
  {
  }

  /** The sort's result is sorted. */
  lemma {:induction false} SortIsSorted(s: seq<Entry>)
    ensures SortedBySeconds(SortBySeconds(s))
  {
    if s != [] {
      var l := SortBySeconds(s[..|s| - 1]);
      SortIsSorted(s[..|s| - 1]);
      var k := InsertAt(l, s[|s| - 1]);
      SplitInsertSorted(l, s[|s| - 1], k);
    }
  }

  /** The sort's step adds e and keeps every other entry. */
  lemma {:induction false} InsertPermutes(l: seq<Entry>, e: Entry)
    ensures multiset(InsertBySeconds(l, e)) == multiset(l) + multiset{e}
  {
    if l != [] && e.seconds < l[|l| - 1].seconds {
      InsertPermutes(l[..|l| - 1], e);
      LastSplit(l);
    }
  }

  /** The sort's result holds the same entries, each as often. */
  lemma {:induction false} SortPermutes(s: seq<Entry>)
    ensures multiset(SortBySeconds(s)) == multiset(s)
  {
    if s != [] {
      SortPermutes(s[..|s| - 1]);
      InsertPermutes(SortBySeconds(s[..|s| - 1]), s[|s| - 1]);
      LastSplit(s);
    }
  }

  lemma {:induction false} WithTimeAppend(a: seq<Entry>, b: seq<Entry>, t: int)
    ensures WithTime(a + b, t) == WithTime(a, t) + WithTime(b, t)
  {
    if b != [] {
      WithTimeAppend(a, b[..|b| - 1], t);
      assert (a + b)[..|a + b| - 1] == a + b[..|b| - 1];
    } else {
      assert a + b == a;
    }
  }

  /** The sort's step adds e after the entries of its own time and moves no other. */
  lemma {:induction false} InsertKeepsTimes(l: seq<Entry>, e: Entry, t: int)
    ensures WithTime(InsertBySeconds(l, e), t) == WithTime(l, t) + WithTime([e], t)
  {
    if l == [] {
      assert [e][..0] == [];
    } else if e.seconds < l[|l| - 1].seconds {
      var init, last := l[..|l| - 1], l[|l| - 1];
      var r := InsertBySeconds(init, e) + [last];
      InsertKeepsTimes(init, e, t);
      assert r[..|r| - 1] == InsertBySeconds(init, e);
      assert [e][..0] == [];
    } else {
      WithTimeAppend(l, [e], t);
    }
  }

  /** Stability: among entries with the same time, the sort keeps the order they had. */
  lemma {:induction false} SortIsStable(s: seq<Entry>, t: int)
    ensures WithTime(SortBySeconds(s), t) == WithTime(s, t)
  {
    if s != [] {
      var init, e := s[..|s| - 1], s[|s| - 1];
      InsertKeepsTimes(SortBySeconds(init), e, t);
      SortIsStable(init, t);
      LastSplit(s);
      WithTimeAppend(init, [e], t);
    }
  }

  /** Sorting a list that is already sorted leaves it as it is. */
  lemma {:induction false} SortedUnchanged(s: seq<Entry>)
    requires SortedBySeconds(s)
    ensures SortBySeconds(s) == s
  {
    if s != [] {
      var init := s[..|s| - 1];
      SortedUnchanged(init);
      LastSplit(s);
    }
  }

  // ---------------------------------------------------------------- qualify and record

  /** subList(TOP_K, size).clear(): the first TOP_K entries. */
  function Top(s: seq<Entry>): (r: seq<Entry>)
    ensures |r| == (if |s| < TOP_K then |s| else TOP_K) && r == s[..|r|]
  {
    if |s| <= TOP_K then s else s[..TOP_K]
  }

  /** handleWin's test: a time makes the board when its difficulty holds fewer than TOP_K
      entries, or when it is strictly faster than the slowest of them. */
  function Qualifies(l: seq<Entry>, time: int): bool
  {
    |l| < TOP_K || time < SortBySeconds(l)[|l| - 1].seconds
  }

  /** The record step: add the entry, sort stably by seconds, keep the first TOP_K. */
  function Record(l: seq<Entry>, e: Entry): seq<Entry>
  {
    Top(SortBySeconds(l + [e]))
  }

  /** On a sorted list of at most TOP_K entries, recording puts the new entry right after
      every entry that was no slower, drops whatever falls past TOP_K, and keeps the list
      sorted and non-empty. */
  lemma RecordInserts(l: seq<Entry>, e: Entry) returns (k: nat)
    requires SortedBySeconds(l) && |l| <= TOP_K
    ensures k <= |l| && Record(l, e) == Top(l[..k] + [e] + l[k..])
    ensures forall i :: 0 <= i < k ==> l[i].seconds <= e.seconds
    ensures forall i :: k <= i < |l| ==> e.seconds < l[i].seconds
    ensures SortedBySeconds(Record(l, e)) && 1 <= |Record(l, e)| <= TOP_K
  {
    assert (l + [e])[..|l|] == l;
    SortedUnchanged(l);
    k := InsertAt(l, e);
    SplitInsertSorted(l, e, k);
  }

  /** Recording into a sorted list of at most TOP_K entries leaves a sorted list of one to
      TOP_K entries. */
  lemma RecordWellFormed(l: seq<Entry>, e: Entry)
    requires SortedBySeconds(l) && |l| <= TOP_K
    ensures SortedBySeconds(Record(l, e)) && 1 <= |Record(l, e)| <= TOP_K
  {
    var _ := RecordInserts(l, e);
  }

  /** The qualification test says exactly whether recording changes the list: a time that
      qualifies lands on the board at its place, one that does not would fall off the end. */
  lemma QualifiesIffRecorded(l: seq<Entry>, e: Entry)
    requires SortedBySeconds(l) && |l| <= TOP_K
    ensures Qualifies(l, e.seconds) <==> Record(l, e) != l
    ensures Qualifies(l, e.seconds) ==> e in Record(l, e)
  {
    var k := RecordInserts(l, e);
    var r := l[..k] + [e] + l[k..];
    assert r[k] == e;
    SortedUnchanged(l);
    if |l| == TOP_K {
      if k < TOP_K {
        assert Record(l, e)[k] == e && e.seconds < l[k].seconds;
      } else {
        assert r[..TOP_K] == l;
      }
    }
  }

  // ---------------------------------------------------------------- the player's name

  /** The name dialog's answer made into a leaderboard name: no answer or a blank one
      gives "Anonymous"; otherwise the answer is trimmed and cut to NAME_LIMIT chars. */
  function NormalizeName(input: Option<string>): (name: string)
    ensures 1 <= |name| <= NAME_LIMIT && !IsSpace(name[0])
    ensures input.Some? && Trim(input.value) != [] ==>
      |name| <= |Trim(input.value)| && name == Trim(input.value)[..|name|] &&
      (name == Trim(input.value) || |name| == NAME_LIMIT)
    ensures (input.None? || Trim(input.value) == []) ==> name == ANONYMOUS
  {
    var raw := if input.None? then ANONYMOUS else input.value;
    var trimmed := Trim(raw);
    var name := if trimmed == [] then ANONYMOUS else trimmed;
    if |name| > NAME_LIMIT then name[..NAME_LIMIT] else name
  }

  /** A name that is already short and trimmed is recorded as typed. */
  lemma CleanNameKept(s: string)
    requires 1 <= |s| <= NAME_LIMIT && !IsSpace(s[0]) && !IsSpace(s[|s| - 1])
    ensures NormalizeName(Some(s)) == s
  {
    TrimUnchanged(s);
  }

  // ---------------------------------------------------------------- the line format

  /** The line saveLeaderboard writes for one entry. */
  function FormatLine(diff: string, e: Entry): string
  {
    diff + [SEP] + e.name + [SEP] + IntToString(e.seconds)
  }

  /** One line as loadLeaderboard reads it: trimmed, then skipped when blank, when it does
      not split into three fields at the first two separators, or when the third field is
      not an int. */
  function ParseLine(line: string): (r: Option<(string, Entry)>)
    ensures Trim(line) == [] ==> r.None?
    ensures r.Some? ==> SEP !in r.value.0 && SEP !in r.value.1.name && IsInt(r.value.1.seconds)
  {
    var t := Trim(line);
    if t == [] then None
    else
      var parts := Split3(t, SEP);
      if |parts| != 3 then None
      else
        match ParseInt(parts[2])
        case None => None
        case Some(v) => Some((parts[0], Entry(parts[1], v)))
  }

  /** A difficulty name that comes back unchanged from a saved line: no separator, no line
      break, and no space at its start (the line is trimmed when read). */
  predicate StorableKey(diff: string)
  {
    SEP !in diff && NoLineBreak(diff) && (diff == [] || !IsSpace(diff[0]))
  }

  /** An entry that comes back unchanged from a saved line. */
  predicate StorableEntry(e: Entry)
  {
    SEP !in e.name && NoLineBreak(e.name) && IsInt(e.seconds)
  }

  /** Reading a written line gives back its difficulty and entry. */
  lemma ParseFormatted(diff: string, e: Entry)
    requires StorableKey(diff) && StorableEntry(e)
    ensures ParseLine(FormatLine(diff, e)) == Some((diff, e))
  {
    FormattedIsTrimmed(diff, e);
    Split3Join(diff, e.name, IntToString(e.seconds), SEP);
    ParseIntToString(e.seconds);
  }

  /** A written line starts with the difficulty or the separator and ends with a digit, so
      trimming leaves it as it is. */
  lemma FormattedIsTrimmed(diff: string, e: Entry)
    requires StorableKey(diff)
    ensures Trim(FormatLine(diff, e)) == FormatLine(diff, e)
  {
    var n := IntToString(e.seconds);
    var line := FormatLine(diff, e);
    IntToStringChars(e.seconds);
    assert line[|line| - 1] == n[|n| - 1];
    assert line[0] == if diff == [] then SEP else diff[0];
    TrimUnchanged(line);
  }

  /** A written line holds no line break when its difficulty and name hold none. */
  lemma FormattedNoLineBreak(diff: string, e: Entry)
    requires NoLineBreak(diff) && NoLineBreak(e.name)
    ensures NoLineBreak(FormatLine(diff, e))
  {
    var n := IntToString(e.seconds);
    IntToStringChars(e.seconds);
    assert NoLineBreak(n);
    ConcatNoLineBreak(diff, [SEP]);
    ConcatNoLineBreak(diff + [SEP], e.name);
    ConcatNoLineBreak(diff + [SEP] + e.name, [SEP]);
    ConcatNoLineBreak(diff + [SEP] + e.name + [SEP], n);
  }

  lemma ConcatNoLineBreak(a: string, b: string)
    requires NoLineBreak(a) && NoLineBreak(b)
    ensures NoLineBreak(a + b)
  {
    forall j | 0 <= j < |a + b| ensures !IsLineBreak((a + b)[j]) {
      if j >= |a| {
        assert (a + b)[j] == b[j - |a|];
      }
    }
  }

  /** A name holding the separator pushes its own tail into the seconds field, so the
      line it is saved in is skipped when read back. */
  lemma SeparatorInNameLost(diff: string, e: Entry)
    requires SEP !in diff && SEP in e.name
    ensures ParseLine(FormatLine(diff, e)).None?
  {
    var n := IntToString(e.seconds);
    var line := FormatLine(diff, e);
    IntToStringChars(e.seconds);
    assert line[|diff|] == SEP && line[|line| - 1] == n[|n| - 1];
    TrimKeepsFrom(line, |diff|);
    var k := LeadingSpaces(line);
    var j := IndexOf(e.name, SEP);
    var c := e.name[j + 1..] + [SEP] + n;
    SplitLine(diff, e.name, n, k, j);
    Split3Join(diff[k..], e.name[..j], c, SEP);
    assert c[|e.name| - j - 1] == SEP;
    ParsedChars(c, |e.name| - j - 1);
  }

  /** The tail of a written line from k on, cut again at the name's first separator j. */
  lemma SplitLine(diff: string, name: string, n: string, k: nat, j: nat)
    requires k <= |diff| && j < |name| && name[j] == SEP
    ensures (diff + [SEP] + name + [SEP] + n)[k..]
      == diff[k..] + [SEP] + name[..j] + [SEP] + (name[j + 1..] + [SEP] + n)
  {
    assert name == name[..j] + [SEP] + name[j + 1..];
  }

  // ---------------------------------------------------------------- save and load

  /** What one saved line holds: a difficulty name and one of its entries. */
  type Row = (string, Entry)

  predicate StorableRow(row: Row)
  {
    StorableKey(row.0) && StorableEntry(row.1)
  }

  /** The entries of one difficulty, each with the difficulty's name. */
  function Tagged(diff: string, es: seq<Entry>): (rows: seq<Row>)
    ensures |rows| == |es| && forall i :: 0 <= i < |es| ==> rows[i] == (diff, es[i])
  {
    seq(|es|, i requires 0 <= i < |es| => (diff, es[i]))
  }

  /** The order the map's entry set is walked in: every difficulty once. */
  predicate IsKeyOrder(order: seq<string>, b: Board)
  {
    (forall i, j :: 0 <= i < j < |order| ==> order[i] != order[j]) &&
    (forall d :: d in order ==> d in b) && (forall d :: d in b ==> d in order)
  }

  /** Every entry of b, difficulty after difficulty in the given order, as saveLeaderboard's
      two loops visit them. */
  function Rows(b: Board, order: seq<string>): seq<Row>
    requires forall d :: d in order ==> d in b
  {
    if order == [] then []
    else Rows(b, order[..|order| - 1]) + Tagged(order[|order| - 1], b[order[|order| - 1]])
  }

  /** The lines written for the rows, one each. */
  function FormatRows(rows: seq<Row>): (lines: seq<string>)
    ensures |lines| == |rows|
    ensures forall i :: 0 <= i < |rows| ==> lines[i] == FormatLine(rows[i].0, rows[i].1)
  {
    seq(|rows|, i requires 0 <= i < |rows| => FormatLine(rows[i].0, rows[i].1))
  }

  lemma FormatRowsAppend(a: seq<Row>, b: seq<Row>)
    ensures FormatRows(a + b) == FormatRows(a) + FormatRows(b)
  {
    assert |FormatRows(a + b)| == |FormatRows(a) + FormatRows(b)|;
  }

  /** The inner loop of saveLeaderboard writes one more line per entry. */
  lemma FormatTaggedStep(diff: string, es: seq<Entry>, j: nat)
    requires j < |es|
    ensures FormatRows(Tagged(diff, es[..j + 1])) == FormatRows(Tagged(diff, es[..j])) + [FormatLine(diff, es[j])]
  {
    assert Tagged(diff, es[..j + 1]) == Tagged(diff, es[..j]) + [(diff, es[j])];
    FormatRowsAppend(Tagged(diff, es[..j]), [(diff, es[j])]);
  }

  /** The outer loop of saveLeaderboard: after the rows so far come one difficulty's list. */
  lemma SavedDifficulty(b: Board, order: seq<string>, i: nat)
    requires i < |order| && forall d :: d in order ==> d in b
    ensures FormatRows(Rows(b, order[..i + 1]))
      == FormatRows(Rows(b, order[..i])) + FormatRows(Tagged(order[i], b[order[i]]))
  {
    assert order[..i + 1][..i] == order[..i];
    FormatRowsAppend(Rows(b, order[..i]), Tagged(order[i], b[order[i]]));
  }

  /** The text of the saved file, with the platform's line separator. */
  function Serialize(b: Board, order: seq<string>, newline: string): string
    requires forall d :: d in order ==> d in b
  {
    WriteLines(FormatRows(Rows(b, order)), newline)
  }

  /** The rows of the lines that parse, in their order; the other lines are skipped. */
  function ParsedRows(lines: seq<string>): seq<Row>
  {
    if lines == [] then []
    else
      var parsed := ParseLine(lines[|lines| - 1]);
      ParsedRows(lines[..|lines| - 1]) + if parsed.Some? then [parsed.value] else []
  }

  /** One row filed by the read loop: its entry goes at the end of its difficulty's list. */
  function AddRow(b: Board, row: Row): Board
  {
    b[row.0 := Get(b, row.0) + [row.1]]
  }

  /** The map after the read loop has filed every row, starting from b. */
  function AddRows(b: Board, rows: seq<Row>): Board
  {
    if rows == [] then b else AddRow(AddRows(b, rows[..|rows| - 1]), rows[|rows| - 1])
  }

  /** One pass of the read loop: the next line's row, when it parses, is filed last. */
  lemma ReadStep(lines: seq<string>, i: nat)
    requires i < |lines|
    ensures AddRows(map[], ParsedRows(lines[..i + 1])) ==
      var parsed := ParseLine(lines[i]);
      if parsed.Some? then AddRow(AddRows(map[], ParsedRows(lines[..i])), parsed.value)
      else AddRows(map[], ParsedRows(lines[..i]))
  {
    var before := ParsedRows(lines[..i]);
    assert lines[..i + 1][..i] == lines[..i];
    if ParseLine(lines[i]).Some? {
      assert (before + [ParseLine(lines[i]).value])[..|before|] == before;
    } else {
      assert before + [] == before;
    }
  }

  /** After reading: every list sorted by seconds and cut to TOP_K. */
  function Finish(b: Board): Board
  {
    map diff | diff in b :: Top(SortBySeconds(b[diff]))
  }

  /** The leaderboard loadLeaderboard builds from the file's text, or from no file. */
  function Loaded(file: Option<string>): Board
  {
    if file.None? then map[] else Finish(AddRows(map[], ParsedRows(ReadLines(file.value))))
  }

  /** Each difficulty holds between one and TOP_K entries, fastest first. */
  predicate WellFormed(b: Board)
  {
    forall diff :: diff in b ==> 1 <= |b[diff]| <= TOP_K && SortedBySeconds(b[diff])
  }

  /** Replacing one difficulty's list by a well-formed one keeps the leaderboard well formed. */
  lemma WellFormedUpdate(b: Board, diff: string, l: seq<Entry>)
    requires WellFormed(b) && 1 <= |l| <= TOP_K && SortedBySeconds(l)
    ensures WellFormed(b[diff := l])
  {
  }

  /** Every difficulty and entry of b comes back unchanged from its saved line. */
  predicate Storable(b: Board)
  {
    forall diff :: diff in b ==>
      StorableKey(diff) && forall i :: 0 <= i < |b[diff]| ==> StorableEntry(b[diff][i])
  }

  lemma {:induction false} AddRowsNonEmpty(b: Board, rows: seq<Row>)
    requires forall diff :: diff in b ==> b[diff] != []
    ensures forall diff :: diff in AddRows(b, rows) ==> AddRows(b, rows)[diff] != []
  {
    if rows != [] {
      AddRowsNonEmpty(b, rows[..|rows| - 1]);
    }
  }

  /** Whatever the file holds, the loaded leaderboard is well formed. */
  lemma LoadedWellFormed(file: Option<string>)
    ensures WellFormed(Loaded(file))
  {
    if file.Some? {
      var c := AddRows(map[], ParsedRows(ReadLines(file.value)));
      AddRowsNonEmpty(map[], ParsedRows(ReadLines(file.value)));
      forall diff | diff in c
        ensures SortedBySeconds(Top(SortBySeconds(c[diff])))
      {
        SortIsSorted(c[diff]);
      }
    }
  }

  /** Filing rows one after another is filing the first part, then the second. */
  lemma {:induction false} AddRowsAppend(b: Board, first: seq<Row>, second: seq<Row>)
    ensures AddRows(b, first + second) == AddRows(AddRows(b, first), second)
  {
    if second == [] {
      assert first + second == first;
    } else {
      var all := first + second;
      assert all[..|all| - 1] == first + second[..|second| - 1];
      AddRowsAppend(b, first, second[..|second| - 1]);
    }
  }

  /** Filing the rows of a difficulty not yet in the map puts its entries under it, in
      their order. */
  lemma {:induction false} AddTagged(b: Board, diff: string, es: seq<Entry>)
    requires diff !in b
    ensures AddRows(b, Tagged(diff, es)) == if es == [] then b else b[diff := es]
  {
    if es != [] {
      var init := es[..|es| - 1];
      var rows := Tagged(diff, es);
      assert rows[..|rows| - 1] == Tagged(diff, init);
      AddTagged(b, diff, init);
      assert es == init + [es[|es| - 1]];
    }
  }

  /** Filing the saved rows rebuilds the map, difficulty by difficulty. */
  lemma {:induction false} AddSavedRows(b: Board, order: seq<string>)
    requires forall d :: d in order ==> d in b && b[d] != []
    requires forall i, j :: 0 <= i < j < |order| ==> order[i] != order[j]
    ensures AddRows(map[], Rows(b, order)) == map d | d in order :: b[d]
  {
    if order != [] {
      var init, last := order[..|order| - 1], order[|order| - 1];
      AddSavedRows(b, init);
      assert last !in init;
      AddRowsAppend(map[], Rows(b, init), Tagged(last, b[last]));
      AddTagged(map d | d in init :: b[d], last, b[last]);
      KeysSnoc(b, order);
    }
  }

  lemma KeysSnoc(b: Board, order: seq<string>)
    requires order != [] && forall d :: d in order ==> d in b
    ensures (map d | d in order[..|order| - 1] :: b[d])[order[|order| - 1] := b[order[|order| - 1]]]
      == map d | d in order :: b[d]
  {
    var init, last := order[..|order| - 1], order[|order| - 1];
    assert order == init + [last];
    forall d ensures d in order <==> d in init || d == last {
    }
  }

  lemma {:induction false} RowsStorable(b: Board, order: seq<string>)
    requires Storable(b) && forall d :: d in order ==> d in b
    ensures forall i :: 0 <= i < |Rows(b, order)| ==> StorableRow(Rows(b, order)[i])
  {
    if order != [] {
      RowsStorable(b, order[..|order| - 1]);
    }
  }

  /** The lines of storable rows each parse back to their row and hold no line break. */
  lemma FormattedRows(rows: seq<Row>)
    requires forall i :: 0 <= i < |rows| ==> StorableRow(rows[i])
    ensures forall i :: 0 <= i < |rows| ==> ParseLine(FormatRows(rows)[i]) == Some(rows[i])
    ensures forall i :: 0 <= i < |rows| ==> NoLineBreak(FormatRows(rows)[i])
  {
    forall i | 0 <= i < |rows|
      ensures ParseLine(FormatRows(rows)[i]) == Some(rows[i])
      ensures NoLineBreak(FormatRows(rows)[i])
    {
      ParseFormatted(rows[i].0, rows[i].1);
      FormattedNoLineBreak(rows[i].0, rows[i].1);
    }
  }

  /** Lines that each parse give back their rows, in order. */
  lemma {:induction false} ParsedRowsOf(lines: seq<string>, rows: seq<Row>)
    requires |lines| == |rows| && forall i :: 0 <= i < |lines| ==> ParseLine(lines[i]) == Some(rows[i])
    ensures ParsedRows(lines) == rows
  {
    if lines != [] {
      var n := |lines| - 1;
      var front, firstRows := lines[..n], rows[..n];
      forall i | 0 <= i < n
        ensures ParseLine(front[i]) == Some(firstRows[i])
      {
        assert front[i] == lines[i] && firstRows[i] == rows[i];
      }
      ParsedRowsOf(front, firstRows);
      assert ParseLine(lines[n]) == Some(rows[n]);
      LastSplit(rows);
    }
  }

  /** Reading a saved file gives back the saved rows, in the order they were written. */
  lemma SavedRowsRead(b: Board, order: seq<string>, newline: string)
    requires Storable(b) && IsKeyOrder(order, b) && IsNewline(newline)
    ensures ParsedRows(ReadLines(Serialize(b, order, newline))) == Rows(b, order)
  {
    var rows := Rows(b, order);
    var lines := FormatRows(rows);
    RowsStorable(b, order);
    FormattedRows(rows);
    ReadWrittenLines(lines, newline);
    ParsedRowsOf(lines, rows);
  }

  /** Save then load gives the leaderboard back, whatever order the map is walked in and
      whichever line separator the platform writes, as long as its names hold no
      separator or line break and its difficulty names do not start with a space. */
  lemma SaveThenLoad(b: Board, order: seq<string>, newline: string)
    requires WellFormed(b) && Storable(b) && IsKeyOrder(order, b) && IsNewline(newline)
    ensures Loaded(Some(Serialize(b, order, newline))) == b
  {
    SavedRowsRead(b, order, newline);
    AddSavedRows(b, order);
    assert (map d | d in order :: b[d]) == b;
    FinishKeepsWellFormed(b);
  }

  /** Sorting and cutting a well-formed leaderboard changes nothing. */
  lemma FinishKeepsWellFormed(b: Board)
    requires WellFormed(b)
    ensures Finish(b) == b
  {
    forall diff | diff in b ensures Top(SortBySeconds(b[diff])) == b[diff] {
      SortedUnchanged(b[diff]);
    }
  }

  // ---------------------------------------------------------------- the frame's map

  /** The frame's leaderboard map and the three places that change or read it. */
  class Leaderboard {
    var lists: Board

    predicate Valid()
      reads this
    {
      WellFormed(lists)
    }

    /** The frame starts from an empty map and loads the saved file. */
    constructor (file: Option<string>)
      ensures Valid() && lists == Loaded(file)
    {
      lists := map[];
      new;
      Load(file);
    }

    /** loadLeaderboard: clear the map, then (when the file exists) add every line that
        parses, then sort and cut every list. */
    method Load(file: Option<string>)
      modifies this
      ensures Valid() && lists == Loaded(file)
    {
      lists := map[];
      LoadedWellFormed(file);
      if file.None? {
        return;
      }
      var lines := ReadLines(file.value);
      var i := 0;
      while i < |lines|
        invariant 0 <= i <= |lines| && lists == AddRows(map[], ParsedRows(lines[..i]))
      {
        ReadStep(lines, i);
        var parsed := ParseLine(lines[i]);
        if parsed.Some? {
          lists := AddRow(lists, parsed.value);
        }
        i := i + 1;
      }
      assert lines[..|lines|] == lines;
      lists := Finish(lists);
    }

    /** saveLeaderboard: the text written, walking the map in the given order. */
    method Save(order: seq<string>, newline: string) returns (text: string)
      requires IsKeyOrder(order, lists)
      ensures text == Serialize(lists, order, newline)
    {
      var lines: seq<string> := [];
      var i := 0;
      while i < |order|
        invariant 0 <= i <= |order| && lines == FormatRows(Rows(lists, order[..i]))
      {
        var diff := order[i];
        var written := WriteList(diff, lists[diff]);
        SavedDifficulty(lists, order, i);
        lines := lines + written;
        i := i + 1;
      }
      assert order[..|order|] == order;
      text := WriteLines(lines, newline);
    }

    /** The inner loop of saveLeaderboard: one line per entry of a difficulty's list. */
    method WriteList(diff: string, es: seq<Entry>) returns (lines: seq<string>)
      ensures lines == FormatRows(Tagged(diff, es))
    {
      lines := [];
      var j := 0;
      while j < |es|
        invariant 0 <= j <= |es| && lines == FormatRows(Tagged(diff, es[..j]))
      {
        FormatTaggedStep(diff, es, j);
        lines := lines + [FormatLine(diff, es[j])];
        j := j + 1;
      }
      assert es[..|es|] == es;
    }

    /** handleWin's leaderboard part: file the time under the selected difficulty when it
        qualifies, under the name the dialog returned, and then save the leaderboard. The
        map's entry set is walked in `order`, which lists its difficulties once each, the
        selected one included (computeIfAbsent adds it). */
    method HandleWin(choice: Option<string>, time: int, input: Option<string>, order: seq<string>, newline: string)
      returns (recorded: bool, saved: Option<string>)
      requires Valid()
      requires IsKeyOrder(order, lists[SelectedDifficultyName(choice) := Get(lists, SelectedDifficultyName(choice))])
      modifies this
      ensures Valid()
      ensures recorded == Qualifies(Get(old(lists), SelectedDifficultyName(choice)), time)
      ensures recorded ==> lists == old(lists)[SelectedDifficultyName(choice) :=
        Record(Get(old(lists), SelectedDifficultyName(choice)), Entry(NormalizeName(input), time))]
      ensures !recorded ==> lists == old(lists)
      ensures recorded ==> IsKeyOrder(order, lists) && saved == Some(Serialize(lists, order, newline))
      ensures !recorded ==> saved == None
    {
      var diff := SelectedDifficultyName(choice);
      var list := Get(lists, diff);
      if |list| < TOP_K {
        recorded := true;
      } else {
        SortedUnchanged(list);
        list := SortBySeconds(list);
        lists := lists[diff := list];
        assert lists == old(lists);
        recorded := time < list[|list| - 1].seconds;
      }
      assert list == Get(old(lists), diff) && lists == old(lists);
      if recorded {
        var e := Entry(NormalizeName(input), time);
        RecordWellFormed(list, e);
        list := SortBySeconds(list + [e]);
        list := Top(list);
        assert list == Record(Get(old(lists), diff), e);
        WellFormedUpdate(lists, diff, list);
        lists := lists[diff := list];
        var text := Save(order, newline);
        saved := Some(text);
      } else {
        saved := None;
      }
    }
  }
}
