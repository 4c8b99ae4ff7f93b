/**
  A model of the rules at the centre of the controller-to-serial bridge: an
  activity that samples game-controller input, serialises it into a
  pipe-delimited text frame, hands the frame to a one-slot coalescing queue
  that a send loop drains, frames the bytes read back from the serial port
  into newline-terminated lines, and keeps the state of the one USB-serial
  connection it owns.

  Pure rules (frame text, hat thresholds, the queue's operations, Kotlin's
  `mapOf` and `joinToString`) are functions with lemmas; the activity's
  fields, which the source updates in place, are the fields of the class
  `MainActivity` at the end of the module.
*/
module Controller {

  datatype Option<T> = None | Some(value: T)

  // ---------------------------------------------------------------------
  // Text operations
  // ---------------------------------------------------------------------

  /** Kotlin's `String.startsWith(prefix)`. */
  predicate StartsWith(s: string, prefix: string): (b: bool)
    ensures b <==> |prefix| <= |s| && forall i :: 0 <= i < |prefix| ==> s[i] == prefix[i]
  {
    assert |prefix| <= |s| ==> forall i :: 0 <= i < |prefix| ==> s[..|prefix|][i] == s[i];
    |prefix| <= |s| && s[..|prefix|] == prefix
  }

  /** A string that differs from `prefix` at a position inside both does not start with it. */
  lemma DiffersAt(s: string, prefix: string, k: nat)
    requires k < |prefix| && k < |s| && s[k] != prefix[k]
    ensures !StartsWith(s, prefix)
  {
    if |prefix| <= |s| {
      assert s[..|prefix|][k] == s[k];
    }
  }

  /** `indexOf(c)` on a String or StringBuilder: the first position of `c`, or -1. */
  function IndexOf(s: string, c: char): (i: int)
    ensures -1 <= i < |s|
    ensures i == -1 <==> c !in s
    ensures 0 <= i ==> s[i] == c && c !in s[..i]
  {
    if |s| == 0 then -1
    else if s[0] == c then 0
    else
      var j := IndexOf(s[1..], c);
      assert s == [s[0]] + s[1..];
      if j == -1 then -1
      else
        assert s[..j + 1] == [s[0]] + s[1..][..j];
        j + 1
  }

  /** Kotlin's `joinToString(sep)`: the parts with `sep` between neighbours. */
  function Join(parts: seq<string>, sep: char): (s: string)
    ensures |parts| == 0 ==> s == ""
    ensures |parts| > 0 ==> |parts[0]| <= |s| && s[..|parts[0]|] == parts[0]
    decreases |parts|
  {
    if |parts| == 0 then ""
    else if |parts| == 1 then parts[0]
    else parts[0] + [sep] + Join(parts[1..], sep)
  }

  /**
    Kotlin's `split(sep)` on a single character: the maximal pieces between
    separators, an empty piece at each end that starts or ends with `sep`.
    The source does not split; this is the reference reading of the text it
    produces and consumes.
  */
  function Split(s: string, sep: char): (parts: seq<string>)
    ensures |parts| >= 1
    ensures forall i :: 0 <= i < |parts| ==> sep !in parts[i]
    decreases |s|
  {
    if |s| == 0 then [""]
    else
      var rest := Split(s[1..], sep);
      if s[0] == sep then [""] + rest
      else [[s[0]] + rest[0]] + rest[1..]
  }

  lemma {:induction false} SplitWithoutSep(s: string, sep: char)
    requires sep !in s
    ensures Split(s, sep) == [s]
    decreases |s|
  {
    if |s| > 0 {
      SplitWithoutSep(s[1..], sep);
      assert [s[0]] + s[1..] == s;
    }
  }

  lemma {:induction false} SplitAtSep(a: string, sep: char, b: string)
    requires sep !in a
    ensures Split(a + [sep] + b, sep) == [a] + Split(b, sep)
    decreases |a|
  {
    var s := a + [sep] + b;
    if |a| == 0 {
      assert s == [sep] + b;
      assert s[1..] == b;
    } else {
      assert s[0] == a[0];
      assert s[1..] == a[1..] + [sep] + b;
      SplitAtSep(a[1..], sep, b);
      assert [a[0]] + a[1..] == a;
    }
  }

  /** Splitting a joined sequence of separator-free parts gives the parts back. */
  lemma {:induction false} SplitJoin(parts: seq<string>, sep: char)
    requires |parts| >= 1
    requires forall i :: 0 <= i < |parts| ==> sep !in parts[i]
    ensures Split(Join(parts, sep), sep) == parts
    decreases |parts|
  {
    if |parts| == 1 {
      SplitWithoutSep(parts[0], sep);
    } else {
      SplitJoin(parts[1..], sep);
      SplitAtSep(parts[0], sep, Join(parts[1..], sep));
      assert [parts[0]] + parts[1..] == parts;
    }
  }

  /** Joining the pieces of a split gives the string back: nothing is lost or reordered. */
  lemma {:induction false} JoinSplit(s: string, sep: char)
    ensures Join(Split(s, sep), sep) == s
    decreases |s|
  {
    if |s| > 0 {
      var rest := Split(s[1..], sep);
      JoinSplit(s[1..], sep);
      assert s == [s[0]] + s[1..];
      if s[0] == sep {
        var ps := [""] + rest;
        assert ps[1..] == rest;
        assert Join(ps, sep) == "" + [sep] + Join(rest, sep);
      } else {
        var ps := [[s[0]] + rest[0]] + rest[1..];
        if |rest| == 1 {
          assert Join(ps, sep) == [s[0]] + rest[0];
        } else {
          assert ps[1..] == rest[1..];
          assert Join(rest, sep) == rest[0] + [sep] + Join(rest[1..], sep);
          assert Join(ps, sep) == [s[0]] + rest[0] + [sep] + Join(rest[1..], sep);
        }
      }
    }
  }

  lemma {:induction false} JoinSnoc(parts: seq<string>, sep: char, last: string)
    requires |parts| >= 1
    ensures Join(parts + [last], sep) == Join(parts, sep) + [sep] + last
    decreases |parts|
  {
    var ps := parts + [last];
    if |parts| > 1 {
      assert ps[1..] == parts[1..] + [last];
      JoinSnoc(parts[1..], sep, last);
    }
  }

  /** A character other than the separator that no part contains is not in the joined text. */
  lemma {:induction false} JoinAvoids(parts: seq<string>, sep: char, c: char)
    requires c != sep
    requires forall i :: 0 <= i < |parts| ==> c !in parts[i]
    ensures c !in Join(parts, sep)
    decreases |parts|
  {
    if |parts| > 1 {
      JoinAvoids(parts[1..], sep, c);
    }
  }

  // ---------------------------------------------------------------------
  // Line framing of the serial receive buffer
  // ---------------------------------------------------------------------

  /** The lines, each followed by its terminating newline. */
  function Terminated(lines: seq<string>): string
  {
    if lines == [] then "" else lines[0] + "\n" + Terminated(lines[1..])
  }

  lemma {:induction false} JoinIsTerminated(lines: seq<string>, rest: string)
    ensures Join(lines + [rest], '\n') == Terminated(lines) + rest
    decreases |lines|
  {
    if lines != [] {
      assert (lines + [rest])[1..] == lines[1..] + [rest];
      JoinIsTerminated(lines[1..], rest);
    }
  }

  /**
    Conservation: when the newline pieces of `s` are `lines` and then `rest`,
    `s` is exactly each line followed by a newline, then `rest`.
  */
  lemma LinesConserve(s: string, lines: seq<string>, rest: string)
    requires Split(s, '\n') == lines + [rest]
    ensures s == Terminated(lines) + rest
  {
    JoinSplit(s, '\n');
    JoinIsTerminated(lines, rest);
  }

  /** Taking the text before the first separator peels off the first piece. */
  lemma SplitAtFirst(s: string, sep: char)
    requires IndexOf(s, sep) >= 0
    ensures Split(s, sep) == [s[..IndexOf(s, sep)]] + Split(s[IndexOf(s, sep) + 1..], sep)
  {
    var i := IndexOf(s, sep);
    assert s == s[..i] + [sep] + s[i + 1..];
    SplitAtSep(s[..i], sep, s[i + 1..]);
  }

  /** One pass of the framing loop keeps the lines taken so far and the buffer's pieces together. */
  lemma TakeLineStep(lines: seq<string>, buffer: string, whole: string)
    requires lines + Split(buffer, '\n') == Split(whole, '\n')
    requires IndexOf(buffer, '\n') >= 0
    ensures var i := IndexOf(buffer, '\n');
      (lines + [buffer[..i]]) + Split(buffer[i + 1..], '\n') == Split(whole, '\n')
  {
    var i := IndexOf(buffer, '\n');
    var pieces := Split(buffer[i + 1..], '\n');
    SplitAtFirst(buffer, '\n');
    assert (lines + [buffer[..i]]) + pieces == lines + ([buffer[..i]] + pieces);
  }

  /** When the framing loop stops, the buffer is the last piece and the lines conserve the text. */
  lemma TakeLinesDone(lines: seq<string>, buffer: string, whole: string)
    requires lines + Split(buffer, '\n') == Split(whole, '\n')
    requires '\n' !in buffer
    ensures lines + [buffer] == Split(whole, '\n')
    ensures whole == Terminated(lines) + buffer
    ensures forall i :: 0 <= i < |lines| ==> '\n' !in lines[i]
  {
    SplitWithoutSep(buffer, '\n');
    LinesConserve(whole, lines, buffer);
    var parts := Split(whole, '\n');
    forall i | 0 <= i < |lines|
      ensures '\n' !in lines[i]
    {
      assert lines[i] == parts[i];
    }
  }

  // ---------------------------------------------------------------------
  // The coalescing one-slot send queue (LinkedBlockingQueue(1))
  // ---------------------------------------------------------------------

  const QueueCapacity: nat := 1

  datatype QueueOp = Queue(data: string) | PollOp

  /** `offer(x)`: appends when below capacity, otherwise drops `x`. */
  function Offer(q: seq<string>, x: string): (r: seq<string>)
    ensures |q| <= |r| && r[..|q|] == q
    ensures |q| <= QueueCapacity ==> |r| <= QueueCapacity
    ensures |q| < QueueCapacity ==> |r| > |q| && r[|r| - 1] == x
  {
    if |q| < QueueCapacity then q + [x] else q
  }

  /**
    One operation on the queue: `queueSerialData` clears and then offers;
    `poll` removes and returns the head, or returns nothing.
  */
  function Step(q: seq<string>, op: QueueOp): (r: (seq<string>, Option<string>))
    ensures op.Queue? ==> r == ([op.data], None)
    ensures op.PollOp? ==> r.1 == (if q == [] then None else Some(q[0]))
    ensures op.PollOp? && |q| <= QueueCapacity ==> r.0 == []
  {
    match op
    case Queue(d) => (Offer([], d), None)
    case PollOp => if q == [] then ([], None) else (q[1..], Some(q[0]))
  }

  /** A run of operations: the final queue and what each operation returned. */
  function Run(q: seq<string>, ops: seq<QueueOp>): (r: (seq<string>, seq<Option<string>>))
    ensures |r.1| == |ops|
    decreases |ops|
  {
    if ops == [] then (q, [])
    else
      var prev := Run(q, ops[..|ops| - 1]);
      var next := Step(prev.0, ops[|ops| - 1]);
      (next.0, prev.1 + [next.1])
  }

  lemma {:induction false} RunBounded(q: seq<string>, ops: seq<QueueOp>)
    requires |q| <= QueueCapacity
    ensures |Run(q, ops).0| <= QueueCapacity
    decreases |ops|
  {
    if ops != [] {
      RunBounded(q, ops[..|ops| - 1]);
    }
  }

  /**
    Last write wins: after any non-empty run the queue is determined by the
    last operation alone, `[d]` after queueing `d` and empty after a poll.
  */
  lemma {:induction false} LastOpDecides(q: seq<string>, ops: seq<QueueOp>)
    requires |q| <= QueueCapacity
    requires ops != []
    ensures Run(q, ops).0 == (match ops[|ops| - 1] case Queue(d) => [d] case PollOp => [])
  {
    RunBounded(q, ops[..|ops| - 1]);
  }

  lemma {:induction false} RunPrefix(q: seq<string>, ops: seq<QueueOp>, i: nat)
    requires i < |ops|
    ensures Run(q, ops).1[i] == Step(Run(q, ops[..i]).0, ops[i]).1
    decreases |ops|
  {
    var n := |ops| - 1;
    if i < n {
      assert ops[..n][..i] == ops[..i];
      RunPrefix(q, ops[..n], i);
    } else {
      assert ops[..n] == ops[..i];
    }
  }

  /**
    A poll returns the string queued by the operation just before it, and
    nothing when that operation was itself a poll: every earlier write is
    dropped.
  */
  lemma {:induction false} PollSeesLatestWrite(q: seq<string>, ops: seq<QueueOp>, i: nat)
    requires |q| <= QueueCapacity
    requires 0 < i < |ops| && ops[i] == PollOp
    ensures Run(q, ops).1[i] == (if ops[i - 1].Queue? then Some(ops[i - 1].data) else None)
  {
    RunPrefix(q, ops, i);
    assert ops[..i][i - 1] == ops[i - 1];
    LastOpDecides(q, ops[..i]);
  }

  // ---------------------------------------------------------------------
  // Key codes and the outgoing frame
  // ---------------------------------------------------------------------

  const KeycodeCustomCross: int := 96
  const KeycodeCustomCircle: int := 97
  const KeycodeCustomSquare: int := 99
  const KeycodeCustomTriangle: int := 100
  const CustomButtonKeycodes: set<int> := {KeycodeCustomCross, KeycodeCustomCircle, KeycodeCustomSquare, KeycodeCustomTriangle}

  // Android's KeyEvent key codes
  const KeycodeDpadUp: int := 19
  const KeycodeDpadDown: int := 20
  const KeycodeDpadLeft: int := 21
  const KeycodeDpadRight: int := 22
  const KeycodeButtonL1: int := 102
  const KeycodeButtonR1: int := 103
  const KeycodeButtonL2: int := 104
  const KeycodeButtonR2: int := 105
  const KeycodeButtonThumbL: int := 106
  const KeycodeButtonThumbR: int := 107
  const KeycodeButtonStart: int := 108
  const KeycodeButtonSelect: int := 109
  const KeycodeButtonMode: int := 110

  /** The arguments of `mapOf(...)` that names the buttons, in the order written. */
  const ButtonNames: seq<(int, string)> := [
    (KeycodeCustomCircle, "cr"),
    (KeycodeCustomCross, "ci"),
    (KeycodeCustomTriangle, "tri"),
    (KeycodeCustomSquare, "sq"),
    (KeycodeButtonL1, "L1"),
    (KeycodeButtonR1, "R1"),
    (KeycodeButtonL2, "L2"),
    (KeycodeButtonR2, "R2"),
    (KeycodeButtonSelect, "SH"),
    (KeycodeButtonStart, "OP"),
    (KeycodeButtonMode, "PS"),
    (KeycodeDpadLeft, "l"),
    (KeycodeDpadRight, "r"),
    (KeycodeDpadUp, "u"),
    (KeycodeDpadDown, "d"),
    (KeycodeButtonThumbL, "L3"),
    (KeycodeButtonThumbR, "R3")
  ]

  predicate DistinctKeys(entries: seq<(int, string)>)
  {
    forall i, j :: 0 <= i < j < |entries| ==> entries[i].0 != entries[j].0
  }

  /** The keys of a list of map entries. */
  function KeysOf(entries: seq<(int, string)>): set<int>
  {
    set i | 0 <= i < |entries| :: entries[i].0
  }

  /** `put(k, v)` on an insertion-ordered map, as a list of entries: replace in place, or append. */
  function Put(entries: seq<(int, string)>, k: int, v: string): (r: seq<(int, string)>)
    ensures KeysOf(r) == KeysOf(entries) + {k}
    ensures (k, v) in r
    ensures DistinctKeys(entries) ==> DistinctKeys(r)
    ensures |r| == if k in KeysOf(entries) then |entries| else |entries| + 1
    decreases |entries|
  {
    if entries == [] then [(k, v)]
    else
      KeysOfCons(entries[0], entries[1..]);
      DistinctCons(entries[0], entries[1..]);
      assert [entries[0]] + entries[1..] == entries;
      if entries[0].0 == k then
        KeysOfCons((k, v), entries[1..]);
        DistinctCons((k, v), entries[1..]);
        [(k, v)] + entries[1..]
      else
        var rest := Put(entries[1..], k, v);
        KeysOfCons(entries[0], rest);
        DistinctCons(entries[0], rest);
        [entries[0]] + rest
  }

  lemma KeysOfCons(x: (int, string), rest: seq<(int, string)>)
    ensures KeysOf([x] + rest) == {x.0} + KeysOf(rest)
  {
    var s := [x] + rest;
    forall y | y in KeysOf(s) ensures y in {x.0} + KeysOf(rest) {
      var i :| 0 <= i < |s| && s[i].0 == y;
      if i > 0 { assert rest[i - 1].0 == y; }
    }
    forall y | y in KeysOf(rest) ensures y in KeysOf(s) {
      var i :| 0 <= i < |rest| && rest[i].0 == y;
      assert s[i + 1].0 == y;
    }
    assert s[0].0 == x.0;
  }

  lemma DistinctCons(x: (int, string), rest: seq<(int, string)>)
    ensures DistinctKeys([x] + rest) <==> x.0 !in KeysOf(rest) && DistinctKeys(rest)
  {
    var s := [x] + rest;
    if x.0 !in KeysOf(rest) && DistinctKeys(rest) {
      forall i, j | 0 <= i < j < |s| ensures s[i].0 != s[j].0 {
        if i == 0 { assert s[j].0 == rest[j - 1].0; assert rest[j - 1].0 in KeysOf(rest); }
        else { assert s[i] == rest[i - 1] && s[j] == rest[j - 1]; }
      }
    }
    if DistinctKeys(s) {
      forall i, j | 0 <= i < j < |rest| ensures rest[i].0 != rest[j].0 {
        assert s[i + 1] == rest[i] && s[j + 1] == rest[j];
      }
      forall i | 0 <= i < |rest| ensures rest[i].0 != x.0 {
        assert s[i + 1] == rest[i] && s[0] == x;
      }
    }
  }

  /** The entries of Kotlin's `mapOf(pairs)` (a LinkedHashMap) in iteration order. */
  function MapOf(pairs: seq<(int, string)>): (r: seq<(int, string)>)
    ensures DistinctKeys(r)
    ensures KeysOf(r) == KeysOf(pairs)
    ensures |r| <= |pairs|
    decreases |pairs|
  {
    if pairs == [] then []
    else Put(MapOf(pairs[..|pairs| - 1]), pairs[|pairs| - 1].0, pairs[|pairs| - 1].1)
  }

  lemma {:induction false} PutNewKey(entries: seq<(int, string)>, k: int, v: string)
    requires forall i :: 0 <= i < |entries| ==> entries[i].0 != k
    ensures Put(entries, k, v) == entries + [(k, v)]
    decreases |entries|
  {
    if entries != [] {
      PutNewKey(entries[1..], k, v);
      assert [entries[0]] + (entries[1..] + [(k, v)]) == entries + [(k, v)];
    }
  }

  /** With pairwise distinct keys, `mapOf` keeps every pair, in the order written. */
  lemma {:induction false} MapOfDistinct(pairs: seq<(int, string)>)
    requires DistinctKeys(pairs)
    ensures MapOf(pairs) == pairs
    decreases |pairs|
  {
    if pairs != [] {
      var n := |pairs| - 1;
      var init := pairs[..n];
      assert DistinctKeys(init);
      MapOfDistinct(init);
      PutNewKey(init, pairs[n].0, pairs[n].1);
      assert init + [(pairs[n].0, pairs[n].1)] == pairs;
    }
  }

  /** The button map has all 17 entries, in the order they are written. */
  lemma ButtonMapEntries()
    ensures MapOf(ButtonNames) == ButtonNames
    ensures |MapOf(ButtonNames)| == 17
  {
    assert DistinctKeys(ButtonNames);
    MapOfDistinct(ButtonNames);
  }

  /** `buttonStates[keyCode] == true`: an absent key is not pressed. */
  predicate Pressed(states: map<int, bool>, k: int)
  {
    k in states && states[k]
  }

  function Token(name: string, pressed: bool): string
  {
    if pressed then name + ":p" else name + ":no_p"
  }

  /** The transform of `joinToString` over the entries. */
  function Tokens(entries: seq<(int, string)>, states: map<int, bool>): (ts: seq<string>)
    ensures |ts| == |entries|
    ensures forall i :: 0 <= i < |entries| ==> ts[i] == Token(entries[i].1, Pressed(states, entries[i].0))
    decreases |entries|
  {
    if entries == [] then []
    else [Token(entries[0].1, Pressed(states, entries[0].0))] + Tokens(entries[1..], states)
  }

  /** `btnStr`: one token per entry of the button map, separated by '|'. */
  function ButtonSection(states: map<int, bool>): (s: string)
    ensures Split(s, '|') == Tokens(ButtonNames, states)
  {
    ButtonMapEntries();
    LabelsClean();
    TokensClean(ButtonNames, states);
    SplitJoin(Tokens(ButtonNames, states), '|');
    Join(Tokens(MapOf(ButtonNames), states), '|')
  }

  /**
    `axesStr`: "n:" and then the four formatted axis values separated by ':'.
    The "%.2f" formatting itself is not modelled; the formatted texts are inputs.
  */
  function AxesText(formatted: seq<string>): (s: string)
    ensures |s| >= 2 && s[..2] == "n:"
    ensures |formatted| >= 1 && (forall i :: 0 <= i < |formatted| ==> ':' !in formatted[i]) ==>
      Split(s[2..], ':') == formatted
  {
    var s := "n:" + Join(formatted, ':');
    assert s[2..] == Join(formatted, ':');
    if |formatted| >= 1 && (forall i :: 0 <= i < |formatted| ==> ':' !in formatted[i]) then
      SplitJoin(formatted, ':');
      s
    else
      s
  }

  /** `currentData`: the frame queued for the serial port. */
  function FrameText(axes: string, states: map<int, bool>): (frame: string)
    ensures |frame| >= 3 && frame[0] == '|' && frame[|frame| - 1] == '|'
  {
    "|" + axes + "|" + ButtonSection(states) + "|"
  }

  /** What a receiver reads from a token it expects to carry `name`. */
  function DecodeToken(token: string, name: string): Option<bool>
  {
    if token == name + ":p" then Some(true)
    else if token == name + ":no_p" then Some(false)
    else None
  }

  lemma LabelsClean()
    ensures forall i :: 0 <= i < |ButtonNames| ==> '|' !in ButtonNames[i].1
  {
  }

  /** Formatted axis values without '|' give an axes section without '|'. */
  lemma AxesClean(formatted: seq<string>)
    requires forall i :: 0 <= i < |formatted| ==> '|' !in formatted[i]
    ensures '|' !in AxesText(formatted)
  {
    JoinAvoids(formatted, ':', '|');
  }

  /** A '|'-delimited text of separator-free fields splits back into its fields. */
  lemma {:induction false} DelimitedFields(axes: string, ts: seq<string>)
    requires '|' !in axes
    requires |ts| >= 1 && forall i :: 0 <= i < |ts| ==> '|' !in ts[i]
    ensures Split("|" + axes + "|" + Join(ts, '|') + "|", '|') == ["", axes] + ts + [""]
  {
    var tail := Join(ts, '|') + "|";
    TerminatedFields(ts);
    var mid := axes + ['|'] + tail;
    SplitAtSep(axes, '|', tail);
    SplitAtSep("", '|', mid);
    assert "" + ['|'] + mid == "|" + axes + "|" + Join(ts, '|') + "|";
    assert ["", axes] + ts + [""] == [""] + ([axes] + (ts + [""]));
  }

  /** Separator-free fields, each followed by '|', split into the fields and an empty last one. */
  lemma TerminatedFields(ts: seq<string>)
    requires |ts| >= 1 && forall i :: 0 <= i < |ts| ==> '|' !in ts[i]
    ensures Split(Join(ts, '|') + "|", '|') == ts + [""]
  {
    JoinSnoc(ts, '|', "");
    assert Join(ts, '|') + ['|'] + "" == Join(ts, '|') + "|";
    var parts := ts + [""];
    forall i | 0 <= i < |parts| ensures '|' !in parts[i] {
      if i < |ts| { assert parts[i] == ts[i]; }
    }
    SplitJoin(parts, '|');
  }

  /** Tokens built from names without '|' contain no '|'. */
  lemma TokensClean(entries: seq<(int, string)>, states: map<int, bool>)
    requires forall i :: 0 <= i < |entries| ==> '|' !in entries[i].1
    ensures forall i :: 0 <= i < |entries| ==> '|' !in Tokens(entries, states)[i]
  {
  }

  /**
    The frame splits on '|' into an empty field, the axes section, the 17
    button tokens in the order of the button map, and an empty field.
  */
  lemma FrameFields(axes: string, states: map<int, bool>)
    requires '|' !in axes
    ensures Split(FrameText(axes, states), '|') == ["", axes] + Tokens(ButtonNames, states) + [""]
    ensures |Split(FrameText(axes, states), '|')| == 20
  {
    ButtonMapEntries();
    LabelsClean();
    TokensClean(ButtonNames, states);
    DelimitedFields(axes, Tokens(ButtonNames, states));
  }

  /**
    A receiver that splits the frame on '|' recovers every button's state:
    field i + 2 decodes, against the i-th name, to whether that key is pressed.
  */
  lemma FrameDecodes(axes: string, states: map<int, bool>)
    requires '|' !in axes
    ensures var fields := Split(FrameText(axes, states), '|');
      && |fields| == |ButtonNames| + 3
      && forall i :: 0 <= i < |ButtonNames| ==>
           DecodeToken(fields[i + 2], ButtonNames[i].1) == Some(Pressed(states, ButtonNames[i].0))
  {
    FrameFields(axes, states);
    var fields := Split(FrameText(axes, states), '|');
    forall i | 0 <= i < |ButtonNames|
      ensures DecodeToken(fields[i + 2], ButtonNames[i].1) == Some(Pressed(states, ButtonNames[i].0))
    {
      var name := ButtonNames[i].1;
      assert fields[i + 2] == Tokens(ButtonNames, states)[i];
      assert |name + ":p"| != |name + ":no_p"|;
    }
  }

  // ---------------------------------------------------------------------
  // Controller state
  // ---------------------------------------------------------------------

  /** `buttonStates[keyCode] != newState`, where an absent key reads as null. */
  predicate StateDiffers(states: map<int, bool>, k: int, b: bool)
  {
    k !in states || states[k] != b
  }

  /** The map after `updateButtonState(k, b)`. */
  function UpdatedStates(states: map<int, bool>, k: int, b: bool): (r: map<int, bool>)
    ensures k in r && r[k] == b
    ensures forall j :: j != k ==> (j in r <==> j in states)
    ensures forall j :: j in states && j != k ==> r[j] == states[j]
    ensures !StateDiffers(states, k, b) ==> r == states
  {
    if StateDiffers(states, k, b) then states[k := b] else states
  }

  const DpadThreshold: real := 0.5

  datatype Dpad = Dpad(up: bool, down: bool, left: bool, right: bool)

  /** The four d-pad button states that the hat axes stand for. */
  function DpadFromHat(hatX: real, hatY: real): (d: Dpad)
    ensures !(d.up && d.down) && !(d.left && d.right)
    ensures d.up <==> hatY < -DpadThreshold
    ensures d.down <==> hatY > DpadThreshold
    ensures d.left <==> hatX < -DpadThreshold
    ensures d.right <==> hatX > DpadThreshold
  {
    Dpad(hatY < -DpadThreshold, hatY > DpadThreshold, hatX < -DpadThreshold, hatX > DpadThreshold)
  }

  /** The four `updateButtonState` calls of a d-pad motion event, in source order. */
  function DpadApplied(states: map<int, bool>, d: Dpad): (r: map<int, bool>)
    ensures Pressed(r, KeycodeDpadUp) == d.up && Pressed(r, KeycodeDpadDown) == d.down
    ensures Pressed(r, KeycodeDpadLeft) == d.left && Pressed(r, KeycodeDpadRight) == d.right
    ensures forall k :: !IsDpadKey(k) ==> (k in r <==> k in states)
    ensures forall k :: !IsDpadKey(k) && k in states ==> r[k] == states[k]
  {
    var s1 := UpdatedStates(states, KeycodeDpadUp, d.up);
    var s2 := UpdatedStates(s1, KeycodeDpadDown, d.down);
    var s3 := UpdatedStates(s2, KeycodeDpadLeft, d.left);
    UpdatedStates(s3, KeycodeDpadRight, d.right)
  }

  /** How many of those four calls write to the map. */
  function DpadWrites(states: map<int, bool>, d: Dpad): nat
  {
    (if StateDiffers(states, KeycodeDpadUp, d.up) then 1 else 0)
    + (if StateDiffers(states, KeycodeDpadDown, d.down) then 1 else 0)
    + (if StateDiffers(states, KeycodeDpadLeft, d.left) then 1 else 0)
    + (if StateDiffers(states, KeycodeDpadRight, d.right) then 1 else 0)
  }

  predicate IsDpadKey(k: int)
  {
    k == KeycodeDpadUp || k == KeycodeDpadDown || k == KeycodeDpadLeft || k == KeycodeDpadRight
  }

  /**
    After a hat motion, each d-pad key is pressed exactly when its hat value
    lies strictly beyond the threshold, so opposite directions are never both
    pressed; every other key keeps its state.
  */
  lemma HatMotion(states: map<int, bool>, hatX: real, hatY: real)
    ensures var r := DpadApplied(states, DpadFromHat(hatX, hatY));
      && (Pressed(r, KeycodeDpadUp) <==> hatY < -DpadThreshold)
      && (Pressed(r, KeycodeDpadDown) <==> hatY > DpadThreshold)
      && (Pressed(r, KeycodeDpadLeft) <==> hatX < -DpadThreshold)
      && (Pressed(r, KeycodeDpadRight) <==> hatX > DpadThreshold)
      && !(Pressed(r, KeycodeDpadUp) && Pressed(r, KeycodeDpadDown))
      && !(Pressed(r, KeycodeDpadLeft) && Pressed(r, KeycodeDpadRight))
      && (forall k :: !IsDpadKey(k) ==> (k in r <==> k in states))
      && (forall k :: !IsDpadKey(k) && k in states ==> r[k] == states[k])
  {
  }

  /** The gamepad filter of `onKeyDown`/`onKeyUp`; the platform's classification is a parameter. */
  predicate AcceptsKey(keyCode: int, isGamepadButton: int -> bool): (accepted: bool)
    ensures keyCode in CustomButtonKeycodes ==> accepted
    ensures IsDpadKey(keyCode) ==> (accepted <==> isGamepadButton(keyCode))
  {
    isGamepadButton(keyCode) || keyCode in CustomButtonKeycodes
  }

  // ---------------------------------------------------------------------
  // USB-serial connection
  // ---------------------------------------------------------------------

  datatype UsbDevice = UsbDevice(deviceId: int, deviceName: string, productName: Option<string>)

  /** The serial port object the activity holds, with the device it belongs to. */
  datatype SerialPort = SerialPort(deviceId: int, isOpen: bool)

  /** What the driver does when asked to open a device (an input: the driver is not modelled). */
  datatype OpenOutcome =
    | NoDriver                        // probeDevice found no driver, or the driver has no ports
    | NoConnection(hasPermission: bool) // openDevice returned null
    | OpenFailed(message: string)     // open or setParameters threw
    | Opened

  datatype ReadOutcome = ReadBytes(chunk: string) | ReadFailed(message: string)

  datatype WriteOutcome = Written | WriteFailed(message: string)

  datatype MotionEvent = MotionEvent(
    fromJoystick: bool, fromGamepad: bool, fromDpad: bool, isMove: bool,
    x: real, y: real, z: real, rz: real, hatX: real, hatY: real)

  const WaitingStatus: string := "USB接続待機中..."
  const ConnectedPrefix: string := "USBシリアル接続成功"
  const DetachedPrefix: string := "USBデバイス切断: "
  const OpenErrorPrefix: string := "USBシリアルオープンエラー: "
  const SendErrorPrefix: string := "送信エラー: "
  const ReceiveErrorPrefix: string := "受信エラー: "

  predicate PortOpen(port: Option<SerialPort>)
  {
    port.Some? && port.value.isOpen
  }

  predicate SameDeviceOpen(port: Option<SerialPort>, device: UsbDevice)
  {
    PortOpen(port) && port.value.deviceId == device.deviceId
  }

  /** `productName ?: deviceName`. */
  function DisplayName(device: UsbDevice): string
  {
    if device.productName.Some? then device.productName.value else device.deviceName
  }

  function ConnectedStatus(device: UsbDevice): (s: string)
    ensures StartsWith(s, ConnectedPrefix)
  {
    var s := ConnectedPrefix + ": " + DisplayName(device);
    assert s[..|ConnectedPrefix|] == ConnectedPrefix;
    s
  }

  function NoDriverStatus(device: UsbDevice): (s: string)
    ensures !StartsWith(s, ConnectedPrefix)
  {
    var s := "USBシリアルドライバ/ポートが見つかりません (" + device.deviceName + ")";
    DiffersAt(s, ConnectedPrefix, 7);
    s
  }

  function CannotOpenStatus(device: UsbDevice): (s: string)
    ensures !StartsWith(s, ConnectedPrefix)
  {
    var s := "USBデバイスを開けません (" + device.deviceName + ")";
    DiffersAt(s, ConnectedPrefix, 3);
    s
  }

  function DetachedStatus(device: UsbDevice): (s: string)
    ensures !StartsWith(s, ConnectedPrefix)
  {
    var s := DetachedPrefix + DisplayName(device);
    DiffersAt(s, ConnectedPrefix, 3);
    s
  }

  function OpenErrorStatus(message: string): (s: string)
    ensures !StartsWith(s, ConnectedPrefix)
  {
    var s := OpenErrorPrefix + message;
    DiffersAt(s, ConnectedPrefix, 7);
    s
  }

  function SendErrorStatus(message: string): (s: string)
    ensures !StartsWith(s, ConnectedPrefix)
  {
    var s := SendErrorPrefix + message;
    DiffersAt(s, ConnectedPrefix, 0);
    s
  }

  /** The status after `closeUsbPort`: a success status falls back to waiting, any other stays. */
  function ClosedStatus(status: string): (r: string)
    ensures !StartsWith(r, ConnectedPrefix)
    ensures StartsWith(status, ConnectedPrefix) ==> r == WaitingStatus
    ensures !StartsWith(status, ConnectedPrefix) ==> r == status
  {
    DiffersAt(WaitingStatus, ConnectedPrefix, 3);
    if StartsWith(status, ConnectedPrefix) then WaitingStatus else status
  }

  /** The status after a failed read: only a success status is replaced by the error. */
  function ReadErrorStatus(status: string, message: string): (r: string)
    ensures !StartsWith(r, ConnectedPrefix)
    ensures StartsWith(status, ConnectedPrefix) ==> r == ReceiveErrorPrefix + message
    ensures !StartsWith(status, ConnectedPrefix) ==> r == status
  {
    DiffersAt(ReceiveErrorPrefix + message, ConnectedPrefix, 0);
    if StartsWith(status, ConnectedPrefix) then ReceiveErrorPrefix + message else status
  }

  // ---------------------------------------------------------------------
  // The activity's state
  // ---------------------------------------------------------------------

  class MainActivity {
    var statusMessage: string
    var sentDataForUi: string
    var receivedData: string
    var port: Option<SerialPort>
    var latestAxes: array<real>
    var buttonStates: map<int, bool>
    /** Writes into the snapshot map; each one triggers a recomposition. */
    ghost var stateWrites: nat
    var dataQueue: seq<string>
    var serialBuffer: string

    /**
      Four axes; the queue within its capacity; no complete line left in the
      receive buffer; and the status claims a connection only while the port
      is open.
    */
    ghost predicate Valid()
      reads this
    {
      && latestAxes.Length == 4
      && |dataQueue| <= QueueCapacity
      && '\n' !in serialBuffer
      && (StartsWith(statusMessage, ConnectedPrefix) ==> PortOpen(port))
    }

    constructor ()
      ensures Valid() && fresh(latestAxes)
      ensures statusMessage == WaitingStatus && sentDataForUi == "N/A" && receivedData == "N/A"
      ensures port == None && latestAxes[..] == [0.0, 0.0, 0.0, 0.0] && buttonStates == map[]
      ensures dataQueue == [] && serialBuffer == "" && stateWrites == 0
    {
      statusMessage := WaitingStatus;
      sentDataForUi := "N/A";
      receivedData := "N/A";
      port := None;
      latestAxes := new real[4](_ => 0.0);
      buttonStates := map[];
      stateWrites := 0;
      dataQueue := [];
      serialBuffer := "";
      DiffersAt(WaitingStatus, ConnectedPrefix, 3);
    }

    // ----- receive side -----

    /**
      Appends a decoded chunk to the receive buffer and takes every complete
      line out of it, publishing each to `receivedData` in arrival order.
    */
    method ReceiveChunk(data: string) returns (lines: seq<string>)
      requires Valid()
      modifies this`serialBuffer, this`receivedData
      ensures Valid()
      ensures lines + [serialBuffer] == Split(old(serialBuffer) + data, '\n')
      ensures old(serialBuffer) + data == Terminated(lines) + serialBuffer
      ensures forall i :: 0 <= i < |lines| ==> '\n' !in lines[i]
      ensures receivedData == if lines == [] then old(receivedData) else lines[|lines| - 1]
    {
      ghost var whole := serialBuffer + data;
      serialBuffer := serialBuffer + data;
      lines := [];
      while IndexOf(serialBuffer, '\n') >= 0
        invariant lines + Split(serialBuffer, '\n') == Split(whole, '\n')
        invariant receivedData == if lines == [] then old(receivedData) else lines[|lines| - 1]
        decreases |serialBuffer|
      {
        var line := serialBuffer[..IndexOf(serialBuffer, '\n')];
        receivedData := line;
        TakeLineStep(lines, serialBuffer, whole);
        lines := lines + [line];
        serialBuffer := serialBuffer[|line| + 1..];
      }
      TakeLinesDone(lines, serialBuffer, whole);
    }

    /**
      One pass of the read loop: nothing while the port is closed; a failed
      read replaces only a success status; a non-empty chunk is framed.
    */
    method ReadTick(outcome: ReadOutcome) returns (lines: seq<string>)
      requires Valid()
      modifies this`serialBuffer, this`receivedData, this`statusMessage
      ensures Valid()
      ensures !PortOpen(port) || outcome.ReadFailed? ==>
        lines == [] && serialBuffer == old(serialBuffer) && receivedData == old(receivedData)
      ensures statusMessage ==
        if PortOpen(port) && outcome.ReadFailed? then ReadErrorStatus(old(statusMessage), outcome.message)
        else old(statusMessage)
      ensures PortOpen(port) && outcome.ReadBytes? ==>
        && lines + [serialBuffer] == Split(old(serialBuffer) + outcome.chunk, '\n')
        && old(serialBuffer) + outcome.chunk == Terminated(lines) + serialBuffer
        && receivedData == if lines == [] then old(receivedData) else lines[|lines| - 1]
    {
      lines := [];
      if !PortOpen(port) {
        return;
      }
      match outcome
      case ReadFailed(message) =>
        statusMessage := ReadErrorStatus(statusMessage, message);
      case ReadBytes(chunk) =>
        if |chunk| > 0 {
          lines := ReceiveChunk(chunk);
        } else {
          assert serialBuffer + chunk == serialBuffer;
          SplitWithoutSep(serialBuffer, '\n');
        }
    }

    // ----- send side -----

    /** `queueSerialData`: clear, then offer; the last write wins. */
    method QueueSerialData(data: string)
      requires Valid()
      modifies this`dataQueue
      ensures Valid()
      ensures dataQueue == Step(old(dataQueue), Queue(data)).0
      ensures dataQueue == [data]
    {
      dataQueue := [];
      dataQueue := Offer(dataQueue, data);
    }

    /** `dataQueue.poll()`. */
    method Poll() returns (item: Option<string>)
      requires Valid()
      modifies this`dataQueue
      ensures Valid()
      ensures (dataQueue, item) == Step(old(dataQueue), PollOp)
      ensures dataQueue == []
      ensures item == if old(dataQueue) == [] then None else Some(old(dataQueue)[0])
    {
      if dataQueue == [] {
        item := None;
      } else {
        item := Some(dataQueue[0]);
        dataQueue := dataQueue[1..];
      }
    }

    /**
      `actualSendSerial`: with the port open, a successful write puts the
      line and a newline on the wire and shows it; a failed one sets the
      send-error status.
    */
    method ActualSendSerial(data: string, outcome: WriteOutcome) returns (wire: Option<string>)
      requires Valid()
      modifies this`sentDataForUi, this`statusMessage
      ensures Valid()
      ensures wire == if PortOpen(port) && outcome.Written? then Some(data + "\n") else None
      ensures sentDataForUi == if wire.Some? then data else old(sentDataForUi)
      ensures statusMessage ==
        if PortOpen(port) && outcome.WriteFailed? then SendErrorStatus(outcome.message) else old(statusMessage)
    {
      wire := None;
      if !PortOpen(port) {
        return;
      }
      match outcome
      case Written =>
        wire := Some(data + "\n");
        sentDataForUi := data;
      case WriteFailed(message) =>
        statusMessage := SendErrorStatus(message);
    }

    /** One pass of the send loop: poll, and send what was polled. */
    method SendTick(outcome: WriteOutcome) returns (wire: Option<string>)
      requires Valid()
      modifies this`dataQueue, this`sentDataForUi, this`statusMessage
      ensures Valid()
      ensures dataQueue == []
      ensures wire ==
        if old(dataQueue) != [] && PortOpen(port) && outcome.Written? then Some(old(dataQueue)[0] + "\n") else None
      ensures sentDataForUi == if wire.Some? then old(dataQueue)[0] else old(sentDataForUi)
      ensures statusMessage ==
        if old(dataQueue) != [] && PortOpen(port) && outcome.WriteFailed? then SendErrorStatus(outcome.message)
        else old(statusMessage)
    {
      wire := None;
      var item := Poll();
      if item.Some? {
        wire := ActualSendSerial(item.value, outcome);
      }
    }

    /** One pass of the input loop: build the frame from the current state and queue it. */
    method InputTick(format: real -> string)
      requires Valid()
      modifies this`dataQueue
      ensures Valid()
      ensures dataQueue == [FrameText(AxesText([format(latestAxes[0]), format(latestAxes[1]),
                                                format(latestAxes[2]), format(latestAxes[3])]), buttonStates)]
    {
      var axesStr := AxesText([format(latestAxes[0]), format(latestAxes[1]), format(latestAxes[2]), format(latestAxes[3])]);
      var currentData := FrameText(axesStr, buttonStates);
      QueueSerialData(currentData);
    }

    // ----- input events -----

    /** `updateButtonState`: writes the key only when its state changes. */
    method UpdateButtonState(keyCode: int, newState: bool)
      requires Valid()
      modifies this`buttonStates, this`stateWrites
      ensures Valid()
      ensures buttonStates == UpdatedStates(old(buttonStates), keyCode, newState)
      ensures stateWrites == old(stateWrites) + if StateDiffers(old(buttonStates), keyCode, newState) then 1 else 0
    {
      if StateDiffers(buttonStates, keyCode, newState) {
        buttonStates := buttonStates[keyCode := newState];
        stateWrites := stateWrites + 1;
      }
    }

    /**
      `onGenericMotionEvent`: a move from a joystick, gamepad or d-pad source
      records the four stick axes and sets the d-pad keys from the hat axes;
      any other event is passed on to the framework (`consumed` false).
    */
    method OnGenericMotionEvent(event: MotionEvent) returns (consumed: bool)
      requires Valid()
      modifies latestAxes, this`buttonStates, this`stateWrites
      ensures Valid()
      ensures consumed == ((event.fromJoystick || event.fromGamepad || event.fromDpad) && event.isMove)
      ensures latestAxes[..] == if consumed then [event.x, event.y, event.z, event.rz] else old(latestAxes[..])
      ensures buttonStates ==
        if consumed then DpadApplied(old(buttonStates), DpadFromHat(event.hatX, event.hatY)) else old(buttonStates)
      ensures stateWrites ==
        old(stateWrites) + if consumed then DpadWrites(old(buttonStates), DpadFromHat(event.hatX, event.hatY)) else 0
      ensures consumed ==>
        && !(Pressed(buttonStates, KeycodeDpadUp) && Pressed(buttonStates, KeycodeDpadDown))
        && !(Pressed(buttonStates, KeycodeDpadLeft) && Pressed(buttonStates, KeycodeDpadRight))
    {
      consumed := false;
      if event.fromJoystick || event.fromGamepad || event.fromDpad {
        if event.isMove {
          latestAxes[0] := event.x;
          latestAxes[1] := event.y;
          latestAxes[2] := event.z;
          latestAxes[3] := event.rz;
          var d := DpadFromHat(event.hatX, event.hatY);
          UpdateButtonState(KeycodeDpadUp, d.up);
          UpdateButtonState(KeycodeDpadDown, d.down);
          UpdateButtonState(KeycodeDpadLeft, d.left);
          UpdateButtonState(KeycodeDpadRight, d.right);
          HatMotion(old(buttonStates), event.hatX, event.hatY);
          consumed := true;
        }
      }
    }

    /** `onKeyDown`: a key that passes the gamepad filter becomes pressed. */
    method OnKeyDown(keyCode: int, isGamepadButton: int -> bool) returns (consumed: bool)
      requires Valid()
      modifies this`buttonStates, this`stateWrites
      ensures Valid()
      ensures consumed == AcceptsKey(keyCode, isGamepadButton)
      ensures buttonStates == if consumed then UpdatedStates(old(buttonStates), keyCode, true) else old(buttonStates)
      ensures stateWrites ==
        old(stateWrites) + if consumed && StateDiffers(old(buttonStates), keyCode, true) then 1 else 0
    {
      consumed := false;
      if AcceptsKey(keyCode, isGamepadButton) {
        UpdateButtonState(keyCode, true);
        consumed := true;
      }
    }

    /** `onKeyUp`: a key that passes the gamepad filter becomes released. */
    method OnKeyUp(keyCode: int, isGamepadButton: int -> bool) returns (consumed: bool)
      requires Valid()
      modifies this`buttonStates, this`stateWrites
      ensures Valid()
      ensures consumed == AcceptsKey(keyCode, isGamepadButton)
      ensures buttonStates == if consumed then UpdatedStates(old(buttonStates), keyCode, false) else old(buttonStates)
      ensures stateWrites ==
        old(stateWrites) + if consumed && StateDiffers(old(buttonStates), keyCode, false) then 1 else 0
    {
      consumed := false;
      if AcceptsKey(keyCode, isGamepadButton) {
        UpdateButtonState(keyCode, false);
        consumed := true;
      }
    }

    // ----- connection -----

    /** `closeUsbPort`: always drops the port; a success status falls back to waiting. */
    method CloseUsbPort()
      requires Valid()
      modifies this`port, this`statusMessage
      ensures Valid()
      ensures port == None
      ensures statusMessage == ClosedStatus(old(statusMessage))
    {
      port := None;
      if StartsWith(statusMessage, ConnectedPrefix) {
        statusMessage := WaitingStatus;
        DiffersAt(WaitingStatus, ConnectedPrefix, 3);
      }
    }

    /**
      `openUsbDevice`: nothing when that device is already open; otherwise an
      open port is closed first and the driver's outcome decides the new
      port and status. `permissionRequested` tells whether permission is
      asked for again.
    */
    method OpenUsbDevice(device: UsbDevice, outcome: OpenOutcome) returns (permissionRequested: bool)
      requires Valid()
      modifies this`port, this`statusMessage
      ensures Valid()
      ensures SameDeviceOpen(old(port), device) ==>
        port == old(port) && statusMessage == old(statusMessage) && !permissionRequested
      ensures !SameDeviceOpen(old(port), device) ==>
        match outcome
        case NoDriver =>
          && port == (if PortOpen(old(port)) then None else old(port))
          && statusMessage == NoDriverStatus(device) && !permissionRequested
        case NoConnection(hasPermission) =>
          && port == Some(SerialPort(device.deviceId, false))
          && statusMessage == CannotOpenStatus(device) && permissionRequested == !hasPermission
        case OpenFailed(message) =>
          port == None && statusMessage == OpenErrorStatus(message) && !permissionRequested
        case Opened =>
          && port == Some(SerialPort(device.deviceId, true))
          && statusMessage == ConnectedStatus(device) && !permissionRequested
    {
      permissionRequested := false;
      if PortOpen(port) {
        if port.value.deviceId == device.deviceId {
          return;
        }
        CloseUsbPort();
      }
      match outcome
      case NoDriver =>
        statusMessage := NoDriverStatus(device);
      case NoConnection(hasPermission) =>
        port := Some(SerialPort(device.deviceId, false));
        statusMessage := CannotOpenStatus(device);
        permissionRequested := !hasPermission;
      case OpenFailed(message) =>
        port := Some(SerialPort(device.deviceId, false));
        statusMessage := OpenErrorStatus(message);
        CloseUsbPort();
      case Opened =>
        port := Some(SerialPort(device.deviceId, true));
        statusMessage := ConnectedStatus(device);
    }

    /** The detach branch of the USB receiver: report it, and close only the matching device's port. */
    method OnDeviceDetached(device: UsbDevice)
      requires Valid()
      modifies this`port, this`statusMessage
      ensures Valid()
      ensures statusMessage == DetachedStatus(device)
      ensures port == if old(port).Some? && old(port).value.deviceId == device.deviceId then None else old(port)
    {
      statusMessage := DetachedStatus(device);
      if port.Some? && port.value.deviceId == device.deviceId {
        CloseUsbPort();
      }
    }
  }
}
