/**
 * `parseFrontmatter` of scripts/sync-machines.js: the `---` header block at
 * the very start of a write-up, read line by line into a key/value map.
 */
module Frontmatter {
  import opened Wrappers
  import opened JsStrings

  /** The opening delimiter, anchored at the start of the text. */
  const Open: string := "---\n"
  /** The closing delimiter; the first one after the opening delimiter ends the block. */
  const Close: string := "\n---"

  /**
   * The key JavaScript objects treat specially: assigning a string to
   * `result["__proto__"]` goes through the prototype setter, which ignores
   * anything that is not an object, so such a line leaves `result` as it was.
   */
  const ProtoKey: string := "__proto__"

  /**
   * The capture group of `/^---\n([\s\S]*?)\n---/`: the text after the
   * opening delimiter up to the first closing delimiter that follows it.
   * The lazy quantifier makes that the first one; the missing `m` flag makes
   * `^` the start of the text.
   */
  function Block(text: string): (r: Option<string>)
    ensures r.Some? ==> StartsWith(text, Open)
    ensures r.Some? ==> OccursAt(text, Close, |Open| + |r.value|)
    ensures r.Some? ==> text[..|Open|] + r.value == text[..|Open| + |r.value|]
    ensures r.Some? ==> forall i :: |Open| <= i < |Open| + |r.value| ==> !OccursAt(text, Close, i)
    ensures r.None? ==> !StartsWith(text, Open) || forall i :: |Open| <= i ==> !OccursAt(text, Close, i)
  {
    if !StartsWith(text, Open) then None
    else match IndexOfFrom(text, Close, |Open|)
      case None => None
      case Some(end) =>
        var b := text[|Open|..end];
        assert text[..|Open|] + b == text[..end];
        Some(b)
  }

  /** The block, when there is one, stays the same whatever follows the text. */
  lemma BlockIgnoresRest(text: string, rest: string)
    requires Block(text).Some?
    ensures Block(text + rest) == Block(text)
  {
    var b := Block(text).value;
    var end := |Open| + |b|;
    var t := text + rest;
    assert t[..|Open|] == text[..|Open|];
    assert OccursAt(t, Close, end) by {
      assert t[end..end + |Close|] == text[end..end + |Close|];
    }
    forall i | |Open| <= i < end
      ensures !OccursAt(t, Close, i)
    {
      assert !OccursAt(text, Close, i);
      assert t[i..i + |Close|] == text[i..i + |Close|];
    }
    var e := IndexOfFrom(t, Close, |Open|);
    assert e == Some(end);
    assert t[|Open|..end] == text[|Open|..end];
  }

  /** A `key: value` line, both sides trimmed. */
  datatype Assignment = Assignment(key: string, value: string)

  /**
   * One line of the block: split on the FIRST colon, so the key never holds
   * a colon and any later colon stays in the value; a line without a colon
   * assigns nothing. Key and value are both trimmed.
   */
  function LineAssignment(line: string): (r: Option<Assignment>)
    ensures r.None? <==> ':' !in line
    ensures r.Some? ==> ':' !in r.value.key
    ensures r.Some? ==> Trimmed(r.value.key) && Trimmed(r.value.value)
  {
    match IndexOfChar(line, ':')
    case None => None
    case Some(i) =>
      var key := Trim(line[..i]);
      assert ':' !in key by {
        if ':' in key { TrimKeeps(line[..i], ':'); }
      }
      Some(Assignment(key, Trim(line[i + 1..])))
  }

  /**
   * The key is the trimmed text before the first colon and the value the
   * trimmed text after it, later colons included.
   */
  lemma SplitsAtFirstColon(line: string, i: nat)
    requires i < |line| && line[i] == ':' && ':' !in line[..i]
    ensures LineAssignment(line) == Some(Assignment(Trim(line[..i]), Trim(line[i + 1..])))
  {
  }

  /** The callback's effect on `result` for one line, as the loop performs it. */
  lemma StoreLine(result: map<string, string>, line: string)
    ensures Store(result, LineAssignment(line))
            == match IndexOfChar(line, ':')
               case None => result
               case Some(i) =>
                 if Trim(line[..i]) == ProtoKey then result
                 else result[Trim(line[..i]) := Trim(line[i + 1..])]
  {
  }

  /** What each line of the block assigns, line by line. */
  function Assignments(lines: seq<string>): (r: seq<Option<Assignment>>)
    ensures |r| == |lines|
  {
    seq(|lines|, i requires 0 <= i < |lines| => LineAssignment(lines[i]))
  }

  /** The line stores `key` in the result: `result[key] = value` with an ordinary key. */
  predicate Sets(a: Option<Assignment>, key: string)
  {
    a.Some? && a.value.key == key && key != ProtoKey
  }

  /**
   * The effect of one line's assignment on the result object: the key it
   * sets now holds its value, and every other entry stays as it was.
   */
  function Store(result: map<string, string>, a: Option<Assignment>): (r: map<string, string>)
    ensures forall k :: k in r <==> k in result || Sets(a, k)
    ensures forall k :: Sets(a, k) ==> r[k] == a.value.value
    ensures forall k :: k in result && !Sets(a, k) ==> r[k] == result[k]
  {
    match a
    case None => result
    case Some(kv) => if kv.key == ProtoKey then result else result[kv.key := kv.value]
  }

  /**
   * The result object after the `forEach` callback has stored the lines'
   * assignments, in order: it never holds an own `__proto__` entry.
   */
  function Fold(assignments: seq<Option<Assignment>>): (r: map<string, string>)
    ensures ProtoKey !in r
  {
    if assignments == [] then map[]
    else Store(Fold(assignments[..|assignments| - 1]), assignments[|assignments| - 1])
  }

  /** Storing one more assignment extends the fold by one step. */
  lemma FoldStep(assignments: seq<Option<Assignment>>, n: nat)
    requires n < |assignments|
    ensures Fold(assignments[..n + 1]) == Store(Fold(assignments[..n]), assignments[n])
  {
    assert assignments[..n + 1][..n] == assignments[..n];
  }

  /** A key/value pair as the parser can produce it. */
  predicate WellFormedEntry(key: string, value: string)
  {
    ':' !in key && Trimmed(key) && Trimmed(value) && key != ProtoKey
  }

  /** Storing well-formed assignments only ever produces well-formed entries. */
  lemma {:induction false} FoldWellFormed(assignments: seq<Option<Assignment>>)
    requires forall i :: 0 <= i < |assignments| && assignments[i].Some? ==>
               ':' !in assignments[i].value.key && Trimmed(assignments[i].value.key) && Trimmed(assignments[i].value.value)
    ensures forall k :: k in Fold(assignments) ==> WellFormedEntry(k, Fold(assignments)[k])
  {
    if assignments != [] {
      var init := assignments[..|assignments| - 1];
      FoldWellFormed(init);
    }
  }

  /** A key is in the result exactly when some assignment sets it. */
  lemma {:induction false} FoldKeys(assignments: seq<Option<Assignment>>, key: string)
    ensures key in Fold(assignments) <==> exists i :: 0 <= i < |assignments| && Sets(assignments[i], key)
  {
    if assignments != [] {
      var init := assignments[..|assignments| - 1];
      FoldKeys(init, key);
      if exists i :: 0 <= i < |init| && Sets(init[i], key) {
        var i :| 0 <= i < |init| && Sets(init[i], key);
        assert assignments[i] == init[i];
      }
      if exists i :: 0 <= i < |assignments| && Sets(assignments[i], key) {
        var i :| 0 <= i < |assignments| && Sets(assignments[i], key);
        if i < |init| { assert init[i] == assignments[i]; }
      }
    }
  }

  /** For a key set several times, the last assignment to it gives its value. */
  lemma {:induction false} FoldLastWins(assignments: seq<Option<Assignment>>, i: nat, key: string)
    requires i < |assignments| && Sets(assignments[i], key)
    requires forall j :: i < j < |assignments| ==> !Sets(assignments[j], key)
    ensures key in Fold(assignments) && Fold(assignments)[key] == assignments[i].value.value
  {
    var init := assignments[..|assignments| - 1];
    if i < |assignments| - 1 {
      assert init[i] == assignments[i];
      forall j | i < j < |init| ensures !Sets(init[j], key) { assert init[j] == assignments[j]; }
      FoldLastWins(init, i, key);
    }
  }

  /**
   * `parseFrontmatter(text)`: the map the header block describes, or the
   * empty map when the text does not open with one.
   */
  function Parse(text: string): (fm: map<string, string>)
    ensures Block(text).None? ==> fm == map[]
  {
    match Block(text)
    case None => map[]
    case Some(b) => Fold(Assignments(Split(b, '\n')))
  }

  /** Only the block is read: whatever follows the closing delimiter is ignored. */
  lemma ParseIgnoresRest(text: string, rest: string)
    requires Block(text).Some?
    ensures Parse(text + rest) == Parse(text)
  {
    BlockIgnoresRest(text, rest);
  }

  /** With a block present, the parsed map is what its lines assign. */
  lemma ParseOfBlock(text: string, block: string)
    requires Block(text) == Some(block)
    ensures Parse(text) == Fold(Assignments(Split(block, '\n')))
  {
  }

  /** A key is in the map the lines build exactly when one of the lines sets it. */
  lemma LinesKeys(lines: seq<string>, key: string)
    ensures key in Fold(Assignments(lines))
            <==> exists i :: 0 <= i < |lines| && Sets(LineAssignment(lines[i]), key)
  {
    var assignments := Assignments(lines);
    FoldKeys(assignments, key);
    if exists i :: 0 <= i < |lines| && Sets(assignments[i], key) {
      var i :| 0 <= i < |lines| && Sets(assignments[i], key);
      assert assignments[i] == LineAssignment(lines[i]);
    }
    if exists i :: 0 <= i < |lines| && Sets(LineAssignment(lines[i]), key) {
      var i :| 0 <= i < |lines| && Sets(LineAssignment(lines[i]), key);
      assert assignments[i] == LineAssignment(lines[i]);
    }
  }

  /** The last line that sets a key gives its value in the map the lines build. */
  lemma LinesLastWins(lines: seq<string>, i: nat, key: string)
    requires i < |lines| && Sets(LineAssignment(lines[i]), key)
    requires forall j :: i < j < |lines| ==> !Sets(LineAssignment(lines[j]), key)
    ensures key in Fold(Assignments(lines))
    ensures Fold(Assignments(lines))[key] == LineAssignment(lines[i]).value.value
  {
    var assignments := Assignments(lines);
    assert forall j :: 0 <= j < |lines| ==> assignments[j] == LineAssignment(lines[j]);
    FoldLastWins(assignments, i, key);
  }

  /** The map the lines build holds well-formed entries only. */
  lemma LinesWellFormed(lines: seq<string>)
    ensures forall k :: k in Fold(Assignments(lines)) ==> WellFormedEntry(k, Fold(Assignments(lines))[k])
  {
    var assignments := Assignments(lines);
    assert forall i :: 0 <= i < |assignments| ==> assignments[i] == LineAssignment(lines[i]);
    FoldWellFormed(assignments);
  }

  /** A key is in the parsed map exactly when one of the block's lines sets it. */
  lemma ParseKeys(text: string, block: string, key: string)
    requires Block(text) == Some(block)
    ensures var lines := Split(block, '\n');
            key in Parse(text) <==> exists i :: 0 <= i < |lines| && Sets(LineAssignment(lines[i]), key)
  {
    ParseOfBlock(text, block);
    LinesKeys(Split(block, '\n'), key);
  }

  /** When several lines of the block set a key, the last of them gives its value. */
  lemma ParseLastWins(text: string, block: string, i: nat, key: string)
    requires Block(text) == Some(block)
    requires var lines := Split(block, '\n');
             && i < |lines| && Sets(LineAssignment(lines[i]), key)
             && forall j :: i < j < |lines| ==> !Sets(LineAssignment(lines[j]), key)
    ensures key in Parse(text)
    ensures Parse(text)[key] == LineAssignment(Split(block, '\n')[i]).value.value
  {
    ParseOfBlock(text, block);
    LinesLastWins(Split(block, '\n'), i, key);
  }

  /**
   * Every key of a parsed header is trimmed, holds no colon and is not
   * `__proto__`; every value is trimmed.
   */
  lemma ParseWellFormed(text: string)
    ensures forall k :: k in Parse(text) ==> WellFormedEntry(k, Parse(text)[k])
  {
    if Block(text).Some? {
      ParseOfBlock(text, Block(text).value);
      LinesWellFormed(Split(Block(text).value, '\n'));
    }
  }

  /**
   * The `forEach` over the block's lines: each line's callback stores its
   * `key: value` pair in `result`, in order.
   */
  method StoreLines(lines: seq<string>) returns (result: map<string, string>)
    ensures result == Fold(Assignments(lines))
  {
    ghost var assignments := Assignments(lines);
    result := map[];
    var n := 0;
    while n < |lines|
      invariant 0 <= n <= |lines|
      invariant result == Fold(assignments[..n])
    {
      var line := lines[n];
      ghost var before := result;
      var idx := IndexOfChar(line, ':');
      if idx.Some? {
        var key := Trim(line[..idx.value]);
        var value := Trim(line[idx.value + 1..]);
        if key != ProtoKey {
          result := result[key := value];
        }
      }
      assert result == Fold(assignments[..n + 1]) by {
        assert assignments[n] == LineAssignment(line);
        StoreLine(before, line);
        FoldStep(assignments, n);
      }
      n := n + 1;
    }
    assert assignments[..n] == assignments;
  }

  /**
   * `parseFrontmatter` as the source writes it: match the block, then let a
   * `forEach` over its lines store each `key: value` pair in `result`.
   */
  method ParseFrontmatter(text: string) returns (result: map<string, string>)
    ensures result == Parse(text)
  {
    var block := Block(text);
    if block.None? {
      return map[];
    }
    var lines := Split(block.value, '\n');
    result := StoreLines(lines);
    ParseOfBlock(text, block.value);
  }
}
