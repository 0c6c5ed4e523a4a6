/**
 * nfa_text_handler.py: reading an NFA from the lines of its text format.  Line 0 lists the
 * states, line 1 the alphabet, line 2 is the initial state, line 3 lists the accepting states
 * (lists are comma-separated), and each later line of the form "from, symbol, to" is a
 * transition.  Python's str.split, str.strip and str.replace are modelled on characters
 * (Unicode code points).
 */
module NfaText {
  import opened Wrappers
  import opened Names
  import opened Graph

  /** The characters str.strip() removes: those str.isspace() accepts. */
  predicate IsSpace(c: char) {
    || c == ' ' || '\t' <= c <= '\r' || '\U{1c}' <= c <= '\U{1f}' || c == '\U{85}' || c == '\U{a0}'
    || c == '\U{1680}' || '\U{2000}' <= c <= '\U{200a}' || c == '\U{2028}' || c == '\U{2029}'
    || c == '\U{202f}' || c == '\U{205f}' || c == '\U{3000}'
  }

  /** str.split(sep) for one separator character: the pieces between separators, in order. */
  function Split(s: string, sep: char): (r: seq<string>)
    ensures |r| >= 1
    ensures forall i :: 0 <= i < |r| ==> sep !in r[i]
    decreases |s|
  {
    if s == [] then [""]
    else
      var rest := Split(s[1..], sep);
      if s[0] == sep then [""] + rest else [[s[0]] + rest[0]] + rest[1..]
  }

  /** Joining the pieces of s with the separator gives s back. */
  lemma {:induction false} SplitJoin(s: string, sep: char)
    ensures JoinWith([sep], Split(s, sep)) == s
    decreases |s|
  {
    if s != [] {
      var rest := Split(s[1..], sep);
      SplitJoin(s[1..], sep);
      assert s == [s[0]] + s[1..];
      if s[0] == sep {
        assert JoinWith([sep], [""] + rest) == "" + [sep] + JoinWith([sep], rest);
      } else if |rest| > 1 {
        assert ([s[0]] + rest[0]) + [sep] + JoinWith([sep], rest[1..]) == [s[0]] + (rest[0] + [sep] + JoinWith([sep], rest[1..]));
      }
    }
  }

  /** A string without the separator is one piece. */
  lemma {:induction false} SplitWhole(p: string, sep: char)
    requires sep !in p
    ensures Split(p, sep) == [p]
    decreases |p|
  {
    if p != [] {
      SplitWhole(p[1..], sep);
      assert p == [p[0]] + p[1..];
    }
  }

  /** A piece without the separator, then the separator, splits off as the first piece. */
  lemma {:induction false} SplitFirst(p: string, sep: char, t: string)
    requires sep !in p
    ensures Split(p + [sep] + t, sep) == [p] + Split(t, sep)
    decreases |p|
  {
    if p == [] {
      assert p + [sep] + t == [sep] + t;
      assert ([sep] + t)[1..] == t;
    } else {
      SplitFirst(p[1..], sep, t);
      assert (p + [sep] + t)[1..] == p[1..] + [sep] + t;
      assert [p[0]] + p[1..] == p;
    }
  }

  /** Pieces free of the separator, joined with it, split back into the same pieces. */
  lemma {:induction false} JoinSplit(ps: seq<string>, sep: char)
    requires ps != [] && forall i :: 0 <= i < |ps| ==> sep !in ps[i]
    ensures Split(JoinWith([sep], ps), sep) == ps
    decreases |ps|
  {
    if |ps| == 1 {
      SplitWhole(ps[0], sep);
    } else {
      JoinSplit(ps[1..], sep);
      SplitFirst(ps[0], sep, JoinWith([sep], ps[1..]));
      assert ps == [ps[0]] + ps[1..];
    }
  }

  /** The number of pieces depends only on where the separators are. */
  lemma {:induction false} SplitReplaceCount(s: string, sep: char, a: char, b: char)
    requires a != sep && b != sep
    ensures |Split(Replace(s, a, b), sep)| == |Split(s, sep)|
    decreases |s|
  {
    if s != [] {
      SplitReplaceCount(s[1..], sep, a, b);
      assert Replace(s, a, b)[1..] == Replace(s[1..], a, b);
    }
  }

  /** The leading whitespace of s removed: not starting with whitespace. */
  function StripLeft(s: string): (r: string)
    ensures |r| <= |s|
    ensures r != [] ==> !IsSpace(r[0])
    decreases |s|
  {
    if s != [] && IsSpace(s[0]) then StripLeft(s[1..]) else s
  }

  /** The trailing whitespace of s removed: not ending with whitespace. */
  function StripRight(s: string): (r: string)
    ensures |r| <= |s|
    ensures r != [] ==> !IsSpace(r[|r| - 1])
    decreases |s|
  {
    if s != [] && IsSpace(s[|s| - 1]) then StripRight(s[..|s| - 1]) else s
  }

  /** StripLeft(s) is a suffix of s, and what it cuts off is whitespace. */
  lemma {:induction false} StripLeftCuts(s: string)
    ensures var r := StripLeft(s); r == s[|s| - |r|..] && forall k :: 0 <= k < |s| - |r| ==> IsSpace(s[k])
    decreases |s|
  {
    if s != [] && IsSpace(s[0]) {
      var r := StripLeft(s[1..]);
      StripLeftCuts(s[1..]);
      assert s[1..][|s| - 1 - |r|..] == s[|s| - |r|..];
      forall k | 1 <= k < |s| - |r| ensures IsSpace(s[k]) {
        assert s[k] == s[1..][k - 1];
      }
    }
  }

  /** StripRight(s) is a prefix of s, and what it cuts off is whitespace. */
  lemma {:induction false} StripRightCuts(s: string)
    ensures var r := StripRight(s); r == s[..|r|] && forall k :: |r| <= k < |s| ==> IsSpace(s[k])
    decreases |s|
  {
    if s != [] && IsSpace(s[|s| - 1]) {
      var r := StripRight(s[..|s| - 1]);
      StripRightCuts(s[..|s| - 1]);
      assert s[..|s| - 1][..|r|] == s[..|r|];
      forall k | |r| <= k < |s| - 1 ensures IsSpace(s[k]) {
        assert s[k] == s[..|s| - 1][k];
      }
    }
  }

  /** str.strip(): s without its leading and trailing whitespace. */
  function Strip(s: string): string {
    StripRight(StripLeft(s))
  }

  /** Neither the first nor the last character of r is whitespace. */
  predicate Trimmed(r: string) {
    r != [] ==> !IsSpace(r[0]) && !IsSpace(r[|r| - 1])
  }

  /** Strip(s) is s with its whitespace ends cut off: it neither starts nor ends with whitespace. */
  lemma StripTrimmed(s: string)
    ensures Trimmed(Strip(s))
  {
    var l := StripLeft(s);
    var r := StripRight(l);
    StripRightCuts(l);
    if r != [] {
      assert r[0] == l[0];
    }
  }

  /** Stripping adds no character: a character missing from s is missing from Strip(s). */
  lemma StripAvoids(s: string, x: char)
    requires x !in s
    ensures x !in Strip(s)
  {
    var l := StripLeft(s);
    StripLeftCuts(s);
    assert x !in l;
    StripRightCuts(l);
  }

  /** Splitting adds no character: a character missing from s is missing from every piece. */
  lemma {:induction false} SplitAvoids(s: string, sep: char, x: char)
    requires x !in s
    ensures forall i :: 0 <= i < |Split(s, sep)| ==> x !in Split(s, sep)[i]
    decreases |s|
  {
    if s != [] {
      assert forall k :: 0 <= k < |s[1..]| ==> s[1..][k] == s[k + 1];
      SplitAvoids(s[1..], sep, x);
      var rest := Split(s[1..], sep);
      if s[0] != sep {
        assert x !in [s[0]] + rest[0];
      }
    }
  }

  /** Stripping twice strips nothing more. */
  lemma StripIdempotent(s: string)
    ensures Strip(Strip(s)) == Strip(s)
  {
    var t := Strip(s);
    StripTrimmed(s);
    assert StripLeft(t) == t;
    assert StripRight(t) == t;
  }

  /** str.replace(a, b) for single characters: every a becomes b, every other character stays. */
  function Replace(s: string, a: char, b: char): (r: string)
    ensures |r| == |s|
    ensures forall i :: 0 <= i < |s| ==> r[i] == (if s[i] == a then b else s[i])
    decreases |s|
  {
    if s == [] then [] else [if s[0] == a then b else s[0]] + Replace(s[1..], a, b)
  }

  /** Each piece stripped, as the list comprehensions do. */
  function StripEach(pieces: seq<string>): (r: seq<string>)
    ensures |r| == |pieces| && forall i :: 0 <= i < |pieces| ==> r[i] == Strip(pieces[i])
  {
    if pieces == [] then [] else [Strip(pieces[0])] + StripEach(pieces[1..])
  }

  /** The fields of a comma-separated line: its pieces, each stripped. */
  function Fields(line: string): seq<string> {
    StripEach(Split(line, ','))
  }

  /** The fields of a line: one per comma-separated piece, none holding a comma or edge whitespace. */
  lemma FieldsShape(line: string)
    ensures |Fields(line)| == |Split(line, ',')|
    ensures forall i :: 0 <= i < |Fields(line)| ==> ',' !in Fields(line)[i]
    ensures forall i :: 0 <= i < |Fields(line)| ==> Trimmed(Fields(line)[i])
  {
    var ps := Split(line, ',');
    var fs := Fields(line);
    forall i | 0 <= i < |fs|
      ensures ',' !in fs[i] && Trimmed(fs[i])
    {
      assert fs[i] == Strip(ps[i]);
      StripAvoids(ps[i], ',');
      StripTrimmed(ps[i]);
    }
  }

  /** A character missing from a line is missing from each of its fields. */
  lemma FieldsAvoid(line: string, x: char)
    requires x !in line
    ensures forall i :: 0 <= i < |Fields(line)| ==> x !in Fields(line)[i]
  {
    SplitAvoids(line, ',', x);
    forall i | 0 <= i < |Fields(line)| ensures x !in Fields(line)[i] {
      StripAvoids(Split(line, ',')[i], x);
    }
  }

  /** get_states: the fields of line 0; IndexError when there is no line 0. */
  function GetStates(txt: seq<string>): (r: Result<seq<string>, Error>)
    ensures r.Failure? <==> |txt| < 1
    ensures r.Failure? ==> r.error == IndexError
    ensures r.Success? ==> |r.value| == |Split(txt[0], ',')|
    ensures r.Success? ==> forall i :: 0 <= i < |r.value| ==> r.value[i] == Strip(Split(txt[0], ',')[i])
  {
    if |txt| < 1 then Failure(IndexError) else Success(Fields(txt[0]))
  }

  /**
   * get_alphabets: every 'e' of line 1 becomes 'ε' before the line is split into fields, so
   * each symbol is a stripped piece of the rewritten line and none keeps an 'e'; IndexError
   * when there is no line 1.
   */
  function GetAlphabets(txt: seq<string>): (r: Result<seq<string>, Error>)
    ensures r.Failure? <==> |txt| < 2
    ensures r.Failure? ==> r.error == IndexError
    ensures r.Success? ==> |r.value| == |Split(txt[1], ',')|
    ensures r.Success? ==> forall i :: 0 <= i < |r.value| ==> 'e' !in r.value[i] && ',' !in r.value[i]
    ensures r.Success? ==> |r.value| == |Split(Replace(txt[1], 'e', 'ε'), ',')|
    ensures r.Success? ==> forall i :: 0 <= i < |r.value| ==> r.value[i] == Strip(Split(Replace(txt[1], 'e', 'ε'), ',')[i])
  {
    if |txt| < 2 then Failure(IndexError)
    else
      var line := Replace(txt[1], 'e', 'ε');
      SplitReplaceCount(txt[1], ',', 'e', 'ε');
      FieldsShape(line);
      assert forall k :: 0 <= k < |line| ==> line[k] != 'e';
      FieldsAvoid(line, 'e');
      Success(Fields(line))
  }

  /** get_initial_state: line 2 stripped; IndexError when there is no line 2. */
  function GetInitialState(txt: seq<string>): (r: Result<string, Error>)
    ensures r.Failure? <==> |txt| < 3
    ensures r.Failure? ==> r.error == IndexError
    ensures r.Success? ==> r.value == Strip(txt[2])
  {
    if |txt| < 3 then Failure(IndexError) else Success(Strip(txt[2]))
  }

  /** get_accepting_states: the fields of line 3; IndexError when there is no line 3. */
  function GetAcceptingStates(txt: seq<string>): (r: Result<seq<string>, Error>)
    ensures r.Failure? <==> |txt| < 4
    ensures r.Failure? ==> r.error == IndexError
    ensures r.Success? ==> |r.value| == |Split(txt[3], ',')|
    ensures r.Success? ==> forall i :: 0 <= i < |r.value| ==> r.value[i] == Strip(Split(txt[3], ',')[i])
  {
    if |txt| < 4 then Failure(IndexError) else Success(Fields(txt[3]))
  }

  /** The dictionary get_transitions fills: state -> symbol -> targets, in the order first read. */
  type Table = map<string, map<string, seq<string>>>

  /** The targets recorded for state f on symbol a; none when either key is missing. */
  function TargetsAt(m: Table, f: string, a: string): seq<string> {
    if f in m && a in m[f] then m[f][a] else []
  }

  /** A list with t appended unless t is in it already. */
  function Recorded(ts: seq<string>, t: string): (r: seq<string>)
    ensures forall x :: x in r <==> x in ts || x == t
    ensures Distinct(ts) ==> Distinct(r)
    ensures r != []
  {
    if t in ts then ts else ts + [t]
  }

  /** The symbols recorded for state f; none when f is not a key. */
  function Row(m: Table, f: string): map<string, seq<string>> {
    if f in m then m[f] else map[]
  }

  /**
   * One round of get_transitions' loop, given the fields p of the line: with exactly three
   * fields "from, symbol, to" both keys are made to exist and to is appended unless it is
   * recorded already; with any other number of fields the line is skipped.
   */
  function AddEdge(m: Table, p: seq<string>): Table {
    if |p| != 3 then m
    else m[p[0] := Row(m, p[0])[p[1] := Recorded(TargetsAt(m, p[0], p[1]), p[2])]]
  }

  /** The fields of each line, in order. */
  function Parsed(lines: seq<string>): seq<seq<string>> {
    seq(|lines|, i requires 0 <= i < |lines| => Fields(lines[i]))
  }

  /** The dictionary after reading lines whose fields are rows, in order. */
  function Gathered(rows: seq<seq<string>>): Table
    decreases |rows|
  {
    if rows == [] then map[] else AddEdge(Gathered(rows[..|rows| - 1]), rows[|rows| - 1])
  }

  /** The dictionary after reading lines in order. */
  function Collected(lines: seq<string>): Table {
    Gathered(Parsed(lines))
  }

  /** The lines get_transitions reads: those from index 4 on (none when there are fewer). */
  function EdgeLines(txt: seq<string>): seq<string> {
    if |txt| > 4 then txt[4..] else []
  }

  /** The targets of (f, a) after one line: the line's target is recorded when its state and symbol are f and a. */
  lemma AddEdgeAt(m: Table, p: seq<string>, f: string, a: string)
    ensures TargetsAt(AddEdge(m, p), f, a) ==
      if |p| == 3 && p[0] == f && p[1] == a then Recorded(TargetsAt(m, f, a), p[2]) else TargetsAt(m, f, a)
  {
  }

  /** How one line changes the targets of (f, a): it adds t exactly when its fields are f, a, t. */
  lemma AddEdgeTargets(m: Table, p: seq<string>, f: string, a: string, t: string)
    ensures t in TargetsAt(AddEdge(m, p), f, a) <==> t in TargetsAt(m, f, a) || p == [f, a, t]
  {
    AddEdgeAt(m, p, f, a);
    if |p| == 3 && p[0] == f && p[1] == a {
      assert p == [f, a, p[2]];
    }
  }

  /** How one line changes the keys: it adds its state, and its symbol under that state, with a target. */
  lemma AddEdgeKeys(m: Table, p: seq<string>, f: string, a: string)
    requires forall g, b :: g in m && b in m[g] ==> m[g][b] != []
    ensures var m' := AddEdge(m, p);
      && (f in m' <==> f in m || (|p| == 3 && p[0] == f))
      && (f in m' ==> (a in m'[f] <==> (f in m && a in m[f]) || (|p| == 3 && p[0] == f && p[1] == a)))
      && (f in m' && a in m'[f] ==> m'[f][a] != [])
  {
  }

  /** A target is recorded for (f, a) exactly when some row read is f, a, t. */
  lemma {:induction false} GatheredTargets(rows: seq<seq<string>>, f: string, a: string, t: string)
    ensures t in TargetsAt(Gathered(rows), f, a) <==> exists i :: 0 <= i < |rows| && rows[i] == [f, a, t]
    decreases |rows|
  {
    if rows != [] {
      var init := rows[..|rows| - 1];
      GatheredTargets(init, f, a, t);
      AddEdgeTargets(Gathered(init), rows[|rows| - 1], f, a, t);
      assert forall i :: 0 <= i < |init| ==> init[i] == rows[i];
    }
  }

  /** No target is recorded twice for one state and symbol. */
  lemma {:induction false} GatheredDistinct(rows: seq<seq<string>>)
    ensures forall f, a :: Distinct(TargetsAt(Gathered(rows), f, a))
    decreases |rows|
  {
    if rows != [] {
      var m := Gathered(rows[..|rows| - 1]);
      GatheredDistinct(rows[..|rows| - 1]);
      forall f, a ensures Distinct(TargetsAt(Gathered(rows), f, a)) {
        assert Distinct(TargetsAt(m, f, a));
        AddEdgeAt(m, rows[|rows| - 1], f, a);
      }
    }
  }

  /**
   * The keys: a state is a key exactly when some row read has three fields starting with it,
   * a symbol is a key under it exactly when some such row has that symbol, and every
   * recorded list is non-empty.
   */
  lemma {:induction false} GatheredKeys(rows: seq<seq<string>>, f: string, a: string)
    ensures var m := Gathered(rows);
      && (f in m <==> exists i :: 0 <= i < |rows| && |rows[i]| == 3 && rows[i][0] == f)
      && (f in m ==> (a in m[f] <==> exists i :: 0 <= i < |rows| && |rows[i]| == 3 && rows[i][0] == f && rows[i][1] == a))
    ensures forall g, b :: g in Gathered(rows) && b in Gathered(rows)[g] ==> Gathered(rows)[g][b] != []
    decreases |rows|
  {
    if rows != [] {
      var init := rows[..|rows| - 1];
      var last := rows[|rows| - 1];
      GatheredKeys(init, f, a);
      forall g, b ensures var m' := AddEdge(Gathered(init), last); g in m' && b in m'[g] ==> m'[g][b] != [] {
        AddEdgeKeys(Gathered(init), last, g, b);
      }
      AddEdgeKeys(Gathered(init), last, f, a);
      assert forall i :: 0 <= i < |init| ==> init[i] == rows[i];
    }
  }

  /** A target is recorded for (f, a) exactly when some line read has the fields f, a, t. */
  lemma CollectedTargets(lines: seq<string>, f: string, a: string, t: string)
    ensures t in TargetsAt(Collected(lines), f, a) <==> exists i :: 0 <= i < |lines| && Fields(lines[i]) == [f, a, t]
  {
    var rows := Parsed(lines);
    GatheredTargets(rows, f, a, t);
    assert forall i :: 0 <= i < |lines| ==> rows[i] == Fields(lines[i]);
  }

  /** The body of get_transitions' loop for a line whose fields are parts. */
  method Record(transitions: Table, parts: seq<string>) returns (r: Table)
    ensures r == AddEdge(transitions, parts)
  {
    r := transitions;
    if |parts| == 3 {
      var from, symbol, to := parts[0], parts[1], parts[2];
      if from !in r {
        r := r[from := map[]];
      }
      if symbol !in r[from] {
        r := r[from := r[from][symbol := []]];
      }
      assert r[from][symbol] == TargetsAt(transitions, from, symbol);
      if to !in r[from][symbol] {
        r := r[from := r[from][symbol := r[from][symbol] + [to]]];
      }
      assert r[from] == Row(transitions, from)[symbol := Recorded(TargetsAt(transitions, from, symbol), to)];
    }
  }

  /** get_transitions' loop: the dictionary filled from the lines read so far. */
  method ReadTransitions(lines: seq<string>) returns (transitions: Table)
    ensures transitions == Collected(lines)
  {
    ghost var rows := Parsed(lines);
    transitions := map[];
    var k := 0;
    while k < |lines|
      invariant 0 <= k <= |lines|
      invariant transitions == Gathered(rows[..k])
    {
      assert rows[..k + 1][..k] == rows[..k];
      transitions := Record(transitions, Fields(lines[k]));
      k := k + 1;
    }
    assert rows[..k] == rows;
  }

  /** The dictionary comprehension of get_transitions: every target list sorted. */
  function SortAll(m: Table): Table {
    map f | f in m :: map a | a in m[f] :: Sort(CodePoint, m[f][a])
  }

  /** The result get_transitions builds: every target list joined with ','. */
  function JoinAll(m: Table): map<string, map<string, string>> {
    map f | f in m :: JoinRow(m[f])
  }

  function JoinRow(row: map<string, seq<string>>): map<string, string> {
    map a | a in row :: JoinWith(",", row[a])
  }

  /** The inner loop of get_transitions' last loop: the lists of one state joined. */
  method JoinSymbols(row: map<string, seq<string>>) returns (r: map<string, string>)
    ensures r == JoinRow(row)
  {
    r := map[];
    var left := row.Keys;
    while left != {}
      invariant left <= row.Keys
      invariant r.Keys == row.Keys - left
      invariant forall a :: a in r ==> r[a] == JoinWith(",", row[a])
      decreases left
    {
      var a :| a in left;
      r := r[a := JoinWith(",", row[a])];
      left := left - {a};
    }
    assert r.Keys == JoinRow(row).Keys;
  }

  /** get_transitions' last loop: every list of every state joined. */
  method JoinStates(sorted: Table) returns (r: map<string, map<string, string>>)
    ensures r == JoinAll(sorted)
  {
    r := map[];
    var left := sorted.Keys;
    while left != {}
      invariant left <= sorted.Keys
      invariant r.Keys == sorted.Keys - left
      invariant forall f :: f in r ==> r[f] == JoinRow(sorted[f])
      decreases left
    {
      var f :| f in left;
      var row := JoinSymbols(sorted[f]);
      r := r[f := row];
      left := left - {f};
    }
    assert r.Keys == JoinAll(sorted).Keys;
  }

  /**
   * get_transitions: the lines from index 4 on are read into the dictionary, every target
   * list is sorted, then joined with ','.
   */
  method GetTransitions(txt: seq<string>) returns (r: map<string, map<string, string>>)
    ensures r == JoinAll(SortAll(Collected(EdgeLines(txt))))
  {
    var transitions := ReadTransitions(EdgeLines(txt));
    r := JoinStates(SortAll(transitions));
  }

  /** The targets recorded from the lines of a text are the t of its lines "f, a, t" from index 4 on. */
  lemma TextTargets(txt: seq<string>, f: string, a: string, t: string)
    ensures t in TargetsAt(Collected(EdgeLines(txt)), f, a) <==> exists i :: 4 <= i < |txt| && Fields(txt[i]) == [f, a, t]
  {
    var lines := EdgeLines(txt);
    CollectedTargets(lines, f, a, t);
    assert forall i :: 0 <= i < |lines| ==> lines[i] == txt[i + 4];
    assert forall i :: 4 <= i < |txt| ==> txt[i] == lines[i - 4];
  }

  /** No recorded target holds a comma: each is a field of a line. */
  lemma TargetsNoComma(lines: seq<string>, f: string, a: string)
    ensures forall t :: t in TargetsAt(Collected(lines), f, a) ==> ',' !in t
  {
    forall t | t in TargetsAt(Collected(lines), f, a) ensures ',' !in t {
      CollectedTargets(lines, f, a, t);
      var j :| 0 <= j < |lines| && Fields(lines[j]) == [f, a, t];
      FieldsShape(lines[j]);
      assert Fields(lines[j])[2] == t;
    }
  }

  /**
   * What a value of get_transitions holds: split at ',' it gives back the sorted targets
   * read for (f, a) — each exactly once, and exactly the t of the lines "f, a, t" from
   * index 4 on.  Lines before index 4 and lines without three fields add nothing.
   */
  lemma TransitionValue(txt: seq<string>, f: string, a: string)
    requires var m := Collected(EdgeLines(txt)); f in m && a in m[f]
    ensures var r := JoinAll(SortAll(Collected(EdgeLines(txt))));
      && f in r && a in r[f]
      && var ts := Split(r[f][a], ',');
      && ts == Sort(CodePoint, TargetsAt(Collected(EdgeLines(txt)), f, a))
      && Sorted(CodePoint, ts) && Distinct(ts)
      && forall t :: t in ts <==> exists i :: 4 <= i < |txt| && Fields(txt[i]) == [f, a, t]
  {
    var lines := EdgeLines(txt);
    var m := Collected(lines);
    var targets := TargetsAt(m, f, a);
    var sorted := Sort(CodePoint, targets);
    GatheredKeys(Parsed(lines), f, a);
    GatheredDistinct(Parsed(lines));
    TargetsNoComma(lines, f, a);
    assert forall t :: t in sorted <==> t in targets by {
      forall t ensures t in sorted <==> t in targets {
        assert t in sorted <==> t in multiset(sorted);
      }
    }
    assert sorted != [] by {
      assert |sorted| == |multiset(sorted)| == |multiset(targets)| == |targets|;
    }
    JoinSplit(sorted, ',');
    DistinctPermutation(targets, sorted);
    forall t ensures t in sorted <==> exists i :: 4 <= i < |txt| && Fields(txt[i]) == [f, a, t] {
      TextTargets(txt, f, a, t);
    }
  }

  /**
   * The keys of get_transitions' result: the states are exactly the first fields, and the
   * symbols under a state exactly the second fields, of the lines from index 4 on that have
   * three fields.
   */
  lemma TransitionKeys(txt: seq<string>, f: string, a: string)
    ensures var r := JoinAll(SortAll(Collected(EdgeLines(txt))));
      && (f in r <==> exists i :: 4 <= i < |txt| && |Fields(txt[i])| == 3 && Fields(txt[i])[0] == f)
      && (f in r ==> (a in r[f] <==> exists i :: 4 <= i < |txt| && |Fields(txt[i])| == 3 && Fields(txt[i])[0] == f && Fields(txt[i])[1] == a))
  {
    var lines := EdgeLines(txt);
    var rows := Parsed(lines);
    GatheredKeys(rows, f, a);
    assert forall i :: 0 <= i < |lines| ==> rows[i] == Fields(txt[i + 4]);
    assert forall i :: 4 <= i < |txt| ==> Fields(txt[i]) == rows[i - 4];
  }

  /** A rearrangement of a list without repeats has no repeats. */
  lemma DistinctPermutation(a: seq<string>, b: seq<string>)
    requires Distinct(a) && multiset(a) == multiset(b)
    ensures Distinct(b)
  {
    forall x ensures multiset(b)[x] <= 1 {
      DistinctCount(a, x);
    }
    CountDistinct(b);
  }

  /** A list in which every member occurs at most once has no repeats. */
  lemma {:induction false} CountDistinct(b: seq<string>)
    requires forall x :: multiset(b)[x] <= 1
    ensures Distinct(b)
    decreases |b|
  {
    if b != [] {
      var rest := b[1..];
      assert b == [b[0]] + rest;
      assert forall x :: multiset(rest)[x] <= multiset(b)[x];
      CountDistinct(rest);
      assert b[0] !in rest by {
        assert multiset(b)[b[0]] == 1 + multiset(rest)[b[0]];
      }
      forall i, j | 0 <= i < j < |b| ensures b[i] != b[j] {
        if i > 0 {
          assert b[i] == rest[i - 1] && b[j] == rest[j - 1];
        } else {
          assert b[j] in rest;
        }
      }
    }
  }
}
