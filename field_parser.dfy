/** The parsing half of `extract_all_key_value_pairs`: the response text of the
    language model is read line by line, and every line that holds a colon becomes a
    `key: value` entry of an insertion-ordered dictionary. */
module FieldParser {
  import opened Wrappers
  import opened PyText
  import opened OrderedDict

  /** What one response line contributes: nothing when it holds no colon, otherwise
      the stripped text before its first colon as key and the stripped remainder, any
      further colons included, as value. */
  function LineEntry(line: string): (r: Option<Entry>)
    ensures r.None? <==> ':' !in line
    ensures r.Some? ==> exists i :: (0 <= i < |line| && line[i] == ':' && ':' !in line[..i] &&
      r.value == (Strip(line[..i]), Str(Strip(line[i + 1..]))))
  {
    if ':' in line then
      var (key, value) := SplitOnce(line, ':');
      assert line[|key|] == ':' && line[..|key|] == key && line[|key| + 1..] == value;
      Some((Strip(key), Str(Strip(value))))
    else
      None
  }

  /** The entries `f` makes of `lines`, in order, skipping the lines it maps to `None`. */
  function Collect(f: string -> Option<Entry>, lines: seq<string>): (es: seq<Entry>)
    decreases |lines|
  {
    if lines == [] then []
    else
      var prev := Collect(f, lines[..|lines| - 1]);
      match f(lines[|lines| - 1])
      case None => prev
      case Some(e) => prev + [e]
  }

  /** `f` makes of `line` an entry for key `k`. */
  predicate Makes(f: string -> Option<Entry>, line: string, k: string) {
    f(line).Some? && f(line).value.0 == k
  }

  /** The dictionary `extract_all_key_value_pairs` returns for the model's response
      text: `{}` for an empty response, otherwise one assignment per line with a colon,
      lines being the pieces of `text.split("\n")`. */
  function ParseFields(text: string): Dict
  {
    if text == "" then [] else FromPairs(Collect(LineEntry, Split(text, '\n')))
  }

  /** The loop at the heart of `extract_all_key_value_pairs`, filling the dictionary
      in place. */
  method ParseResponse(text: string) returns (d: Dict)
    ensures d == ParseFields(text)
    ensures UniqueKeys(d)
  {
    d := [];
    if text != "" {
      var lines := Split(text, '\n');
      for i := 0 to |lines|
        invariant d == FromPairs(Collect(LineEntry, lines[..i]))
      {
        ParseStep(lines, i);
        if ':' in lines[i] {
          var (key, value) := SplitOnce(lines[i], ':');
          d := Put(d, Strip(key), Str(Strip(value)));
        }
      }
      assert lines[..|lines|] == lines;
    }
  }

  /** One more line either leaves the dictionary alone or assigns its entry. */
  lemma ParseStep(lines: seq<string>, i: int)
    requires 0 <= i < |lines|
    ensures var prev := FromPairs(Collect(LineEntry, lines[..i]));
      FromPairs(Collect(LineEntry, lines[..i + 1])) ==
        match LineEntry(lines[i])
        case None => prev
        case Some(e) => Put(prev, e.0, e.1)
  {
    CollectSnoc(LineEntry, lines, i);
    match LineEntry(lines[i])
    case None =>
    case Some(e) => FromPairsSnoc(Collect(LineEntry, lines[..i]), e);
  }

  lemma CollectSnoc(f: string -> Option<Entry>, lines: seq<string>, i: int)
    requires 0 <= i < |lines|
    ensures Collect(f, lines[..i + 1]) ==
      match f(lines[i])
      case None => Collect(f, lines[..i])
      case Some(e) => Collect(f, lines[..i]) + [e]
  {
    assert lines[..i + 1][..i] == lines[..i];
  }

  lemma {:induction false} CollectKeys(f: string -> Option<Entry>, lines: seq<string>, k: string)
    ensures k in KeysOf(Collect(f, lines)) <==> exists j :: 0 <= j < |lines| && Makes(f, lines[j], k)
    decreases |lines|
  {
    if lines != [] {
      var n := |lines| - 1;
      var pre := lines[..n];
      CollectKeys(f, pre, k);
      var prev := Collect(f, pre);
      assert forall j :: 0 <= j < n ==> pre[j] == lines[j];
      match f(lines[n])
      case None =>
      case Some(e) =>
        assert KeysOf(prev + [e]) == KeysOf(prev) + [e.0];
    }
  }

  lemma {:induction false} CollectLastWins(f: string -> Option<Entry>, lines: seq<string>, j: int)
    requires 0 <= j < |lines| && f(lines[j]).Some?
    requires forall j' :: j < j' < |lines| ==> !Makes(f, lines[j'], f(lines[j]).value.0)
    ensures exists i :: (0 <= i < |Collect(f, lines)| && Collect(f, lines)[i] == f(lines[j]).value &&
      forall i' :: i < i' < |Collect(f, lines)| ==> Collect(f, lines)[i'].0 != f(lines[j]).value.0)
    decreases |lines|
  {
    var n := |lines| - 1;
    var pre := lines[..n];
    var prev := Collect(f, pre);
    var es := Collect(f, lines);
    var e := f(lines[j]).value;
    if j == n {
      assert es == prev + [e];
      assert es[|prev|] == e;
    } else {
      assert pre[j] == lines[j];
      forall j' | j < j' < |pre| ensures !Makes(f, pre[j'], e.0) {
        assert pre[j'] == lines[j'];
      }
      CollectLastWins(f, pre, j);
      var i :| 0 <= i < |prev| && prev[i] == e && forall i' :: i < i' < |prev| ==> prev[i'].0 != e.0;
      assert prev <= es;
      assert es == prev || (|es| == |prev| + 1 && es[|prev|].0 != e.0);
      assert es[i] == e;
    }
  }

  lemma {:induction false} CollectOrder(f: string -> Option<Entry>, lines: seq<string>, x: string, y: string)
    requires AssignedBefore(Collect(f, lines), x, y)
    ensures exists j :: (0 <= j < |lines| && Makes(f, lines[j], x) &&
      forall j' :: 0 <= j' <= j ==> !Makes(f, lines[j'], y))
    decreases |lines|
  {
    var n := |lines| - 1;
    var pre := lines[..n];
    var prev := Collect(f, pre);
    var es := Collect(f, lines);
    var i :| 0 <= i < |es| && es[i].0 == x && forall i' :: 0 <= i' <= i ==> es[i'].0 != y;
    assert prev <= es;
    if i < |prev| {
      assert AssignedBefore(prev, x, y) by {
        assert prev[i].0 == x;
        forall i' | 0 <= i' <= i ensures prev[i'].0 != y { assert prev[i'] == es[i']; }
      }
      CollectOrder(f, pre, x, y);
      var j :| 0 <= j < |pre| && Makes(f, pre[j], x) && forall j' :: 0 <= j' <= j ==> !Makes(f, pre[j'], y);
      assert pre[j] == lines[j];
      forall j' | 0 <= j' <= j ensures !Makes(f, lines[j'], y) { assert pre[j'] == lines[j']; }
    } else {
      assert es == prev + [f(lines[n]).value];
      assert Makes(f, lines[n], x);
      assert y !in KeysOf(prev) by {
        forall i' | 0 <= i' < |prev| ensures prev[i'].0 != y { assert prev[i'] == es[i']; }
      }
      CollectKeys(f, pre, y);
      forall j' | 0 <= j' <= n ensures !Makes(f, lines[j'], y) {
        if j' < n { assert pre[j'] == lines[j']; }
      }
    }
  }

  /** Line `j` of the response assigns key `k`. */
  predicate Assigns(text: string, j: int, k: string) {
    0 <= j < |Split(text, '\n')| && Makes(LineEntry, Split(text, '\n')[j], k)
  }

  /** The guard `if response.text:` changes nothing: the empty response splits into
      one empty line, which holds no colon. */
  lemma ParseFieldsUnguarded(text: string)
    ensures ParseFields(text) == FromPairs(Collect(LineEntry, Split(text, '\n')))
  {
    if text == "" {
      assert Split(text, '\n') == [""];
      assert LineEntry("") == None;
      assert Collect(LineEntry, [""]) == [];
    }
  }

  /** The keys of the dictionary are exactly the stripped keys of the lines that hold
      a colon. */
  lemma ParseFieldsKeys(text: string, k: string)
    ensures k in KeysOf(ParseFields(text)) <==> exists j :: Assigns(text, j, k)
  {
    ParseFieldsUnguarded(text);
    var lines := Split(text, '\n');
    var es := Collect(LineEntry, lines);
    CollectKeys(LineEntry, lines, k);
    assert k in KeysOf(ParseFields(text)) <==> k in KeysOf(es);
    if exists j :: 0 <= j < |lines| && Makes(LineEntry, lines[j], k) {
      var j :| 0 <= j < |lines| && Makes(LineEntry, lines[j], k);
      assert Assigns(text, j, k);
    }
    if exists j :: Assigns(text, j, k) {
      var j :| Assigns(text, j, k);
      assert 0 <= j < |lines| && Makes(LineEntry, lines[j], k);
    }
  }

  /** A response in which no line holds a colon, the empty response included, gives
      the empty dictionary. */
  lemma ParseFieldsNoColon(text: string)
    requires ':' !in text
    ensures ParseFields(text) == []
  {
    var d := ParseFields(text);
    var lines := Split(text, '\n');
    if d != [] {
      ParseFieldsKeys(text, d[0].0);
      var j :| Assigns(text, j, d[0].0);
      assert ':' in lines[j];
      var c :| 0 <= c < |lines[j]| && lines[j][c] == ':';
      JoinedPieceChar(lines, '\n', j, c);
    }
  }

  /** Every character of a piece is a character of the joined string. */
  lemma {:induction false} JoinedPieceChar(parts: seq<string>, sep: char, j: int, c: int)
    requires 0 <= j < |parts| && 0 <= c < |parts[j]|
    ensures parts[j][c] in Join(parts, sep)
    decreases |parts|
  {
    if |parts| > 1 {
      if j == 0 {
        assert Join(parts, sep)[c] == parts[0][c];
      } else {
        JoinedPieceChar(parts[1..], sep, j - 1, c);
        var s := Join(parts[1..], sep);
        var t :| 0 <= t < |s| && s[t] == parts[j][c];
        assert Join(parts, sep)[|parts[0]| + 1 + t] == s[t];
      }
    }
  }

  /** For a key assigned on several lines, the value of the last such line wins. */
  lemma ParseFieldsLastWins(text: string, j: int, k: string)
    requires Assigns(text, j, k)
    requires forall j' :: j < j' ==> !Assigns(text, j', k)
    ensures Get(ParseFields(text), k) == Some(LineEntry(Split(text, '\n')[j]).value.1)
  {
    var lines := Split(text, '\n');
    ParseFieldsUnguarded(text);
    forall j' | j < j' < |lines| ensures !Makes(LineEntry, lines[j'], k) {
      assert !Assigns(text, j', k);
    }
    CollectLastWins(LineEntry, lines, j);
    var es := Collect(LineEntry, lines);
    var i :| 0 <= i < |es| && es[i] == LineEntry(lines[j]).value && forall i' :: i < i' < |es| ==> es[i'].0 != k;
    FromPairsLastWins(es, i);
  }

  /** Keys keep the position of their first line: a key listed before another was
      assigned on a line above every line assigning the other. */
  lemma ParseFieldsOrder(text: string, a: int, b: int)
    requires 0 <= a < b < |ParseFields(text)|
    ensures exists j :: (Assigns(text, j, ParseFields(text)[a].0) &&
      forall j' :: 0 <= j' <= j ==> !Assigns(text, j', ParseFields(text)[b].0))
  {
    var lines := Split(text, '\n');
    var es := Collect(LineEntry, lines);
    var x, y := ParseFields(text)[a].0, ParseFields(text)[b].0;
    ParseFieldsUnguarded(text);
    FromPairsOrder(es, a, b);
    CollectOrder(LineEntry, lines, x, y);
    var j :| 0 <= j < |lines| && Makes(LineEntry, lines[j], x) && forall j' :: 0 <= j' <= j ==> !Makes(LineEntry, lines[j'], y);
    assert Assigns(text, j, x);
    forall j' | 0 <= j' <= j ensures !Assigns(text, j', y) {
      assert !Makes(LineEntry, lines[j'], y);
    }
  }

  /** A line `key:value` whose key holds no colon becomes the entry of the stripped key
      and the stripped value, whatever colons the value holds. */
  lemma LineEntryOfPair(key: string, value: string)
    requires ':' !in key
    ensures LineEntry(key + ":" + value) == Some((Strip(key), Str(Strip(value))))
  {
    SplitOnceUnique(key + ":" + value, ':', key, value);
  }
}
