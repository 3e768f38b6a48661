/**
  `_convertStringToObj` (src/index.js:294-302): turns a distinguished-name
  string such as `"CN=Smith, O=Example"` into an object. The string is split
  on `", "`; for every piece, in order, `obj[piece.split('=')[0]]` is set to
  `piece.split('=')[1]`, which is `undefined` when the piece has no `=`.
*/
module DistinguishedName {
  import opened Wrappers

  /** The separator between attributes in a distinguished-name string. */
  const AttributeSeparator: string := ", "

  /** The separator between an attribute's type and its value. */
  const ValueSeparator: string := "="

  /** `sep` occurs in `s` at position `j`. */
  predicate OccursAt(s: string, sep: string, j: int) {
    0 <= j && j + |sep| <= |s| && s[j..j + |sep|] == sep
  }

  /** A non-empty `sep` occurs nowhere in `s`. */
  predicate Free(s: string, sep: string) {
    forall j :: 0 <= j < |s| ==> !OccursAt(s, sep, j)
  }

  lemma OccursAtTail(s: string, sep: string, j: int)
    requires |s| > 0 && 0 <= j
    ensures OccursAt(s[1..], sep, j) <==> OccursAt(s, sep, j + 1)
  {
    if j + 1 + |sep| <= |s| {
      assert s[1..][j..j + |sep|] == s[j + 1..j + 1 + |sep|];
    }
  }

  /** The leftmost occurrence of a non-empty separator, as `String.prototype.indexOf` finds it. */
  function FirstOccurrence(s: string, sep: string): (r: Option<nat>)
    requires |sep| > 0
    ensures r.Some? ==> r.value + |sep| <= |s|
    decreases |s|
  {
    if |s| < |sep| then None
    else if s[..|sep|] == sep then Some(0)
    else
      match FirstOccurrence(s[1..], sep)
      case None => None
      case Some(k) => Some(k + 1)
  }

  /** `FirstOccurrence` finds an occurrence, none lies before it, and it fails only when there is none. */
  lemma {:induction false} FirstOccurrenceIsLeftmost(s: string, sep: string)
    requires |sep| > 0
    ensures var r := FirstOccurrence(s, sep);
      && (r.Some? ==> OccursAt(s, sep, r.value))
      && (r.Some? ==> forall j :: 0 <= j < r.value ==> !OccursAt(s, sep, j))
      && (r.None? <==> Free(s, sep))
    decreases |s|
  {
    if |s| >= |sep| && s[..|sep|] != sep {
      var rest := FirstOccurrence(s[1..], sep);
      FirstOccurrenceIsLeftmost(s[1..], sep);
      forall j | 0 <= j ensures OccursAt(s[1..], sep, j) <==> OccursAt(s, sep, j + 1) {
        OccursAtTail(s, sep, j);
      }
      assert !OccursAt(s, sep, 0);
      if rest.None? {
        forall j | 0 < j < |s| ensures !OccursAt(s, sep, j) {
          assert !OccursAt(s[1..], sep, j - 1);
        }
      } else {
        forall j | 0 < j < rest.value + 1 ensures !OccursAt(s, sep, j) {
          assert !OccursAt(s[1..], sep, j - 1);
        }
        assert OccursAt(s, sep, rest.value + 1);
      }
    } else if |s| < |sep| {
      assert Free(s, sep);
    } else {
      assert OccursAt(s, sep, 0);
    }
  }

  /** The pieces joined back together, the separator between each two. */
  function Join(pieces: seq<string>, sep: string): (s: string)
    requires |pieces| >= 1
    decreases |pieces|
  {
    if |pieces| == 1 then pieces[0] else pieces[0] + sep + Join(pieces[1..], sep)
  }

  /**
    `s.split(sep)` for a non-empty string separator: the text between
    successive leftmost non-overlapping occurrences. There is always at least
    one piece (`"".split(", ")` is `[""]`).
  */
  function Split(s: string, sep: string): (r: seq<string>)
    requires |sep| > 0
    ensures |r| >= 1
    decreases |s|
  {
    match FirstOccurrence(s, sep)
    case None => [s]
    case Some(i) => [s[..i]] + Split(s[i + |sep|..], sep)
  }

  /** The text before the leftmost occurrence holds no occurrence. */
  lemma PrefixIsFree(s: string, sep: string, i: nat)
    requires i <= |s|
    requires forall j :: 0 <= j < i ==> !OccursAt(s, sep, j)
    ensures Free(s[..i], sep)
  {
    var head := s[..i];
    forall j | 0 <= j < |head| ensures !OccursAt(head, sep, j) {
      assert !OccursAt(s, sep, j);
      if j + |sep| <= |head| {
        assert head[j..j + |sep|] == s[j..j + |sep|];
      }
    }
  }

  /** An occurrence at `i` cuts the text into the part before, the separator and the rest. */
  lemma OccurrenceCuts(s: string, sep: string, i: nat)
    requires OccursAt(s, sep, i)
    ensures s == s[..i] + sep + s[i + |sep|..]
  {
    assert s[i..i + |sep|] == sep;
    assert s == s[..i] + s[i..i + |sep|] + s[i + |sep|..];
  }

  /** Joining the pieces gives the text back. */
  lemma {:induction false} SplitJoinsBack(s: string, sep: string)
    requires |sep| > 0
    ensures Join(Split(s, sep), sep) == s
    decreases |s|
  {
    match FirstOccurrence(s, sep)
    case None =>
    case Some(i) =>
      FirstOccurrenceIsLeftmost(s, sep);
      OccurrenceCuts(s, sep, i);
      var tail := s[i + |sep|..];
      SplitJoinsBack(tail, sep);
      var rest := Split(tail, sep);
      var r := [s[..i]] + rest;
      assert Split(s, sep) == r;
      assert r[1..] == rest;
  }

  /** No piece of a split holds the separator. */
  lemma {:induction false} SplitPiecesFree(s: string, sep: string)
    requires |sep| > 0
    ensures forall k :: 0 <= k < |Split(s, sep)| ==> Free(Split(s, sep)[k], sep)
    decreases |s|
  {
    FirstOccurrenceIsLeftmost(s, sep);
    match FirstOccurrence(s, sep)
    case None =>
    case Some(i) =>
      PrefixIsFree(s, sep, i);
      var tail := s[i + |sep|..];
      SplitPiecesFree(tail, sep);
      var rest := Split(tail, sep);
      var r := [s[..i]] + rest;
      assert Split(s, sep) == r;
      forall k | 1 <= k < |r| ensures Free(r[k], sep) {
        assert r[k] == rest[k - 1];
      }
  }

  /** When the separator occurs nowhere, the whole text is the only piece. */
  lemma SplitFree(s: string, sep: string)
    requires |sep| > 0 && Free(s, sep)
    ensures Split(s, sep) == [s]
  {
    FirstOccurrenceIsLeftmost(s, sep);
  }

  /** Text that cannot hold the separator before `a` ends splits first after `a`. */
  lemma SplitAfter(a: string, sep: string, b: string)
    requires |sep| > 0 && sep[0] !in a
    ensures Split(a + sep + b, sep) == [a] + Split(b, sep)
  {
    var s := a + sep + b;
    assert OccursAt(s, sep, |a|) by { assert s[|a|..|a| + |sep|] == sep; }
    forall j | 0 <= j < |a| ensures !OccursAt(s, sep, j) {
      assert s[j] == a[j];
    }
    FirstOccurrenceIsLeftmost(s, sep);
    assert FirstOccurrence(s, sep) == Some(|a|);
    assert s[..|a|] == a && s[|a| + |sep|..] == b;
  }

  /**
    Splitting undoes joining when no piece holds the separator's first
    character (for the one-character `=` this is every piece without `=`).
  */
  lemma {:induction false} SplitJoin(pieces: seq<string>, sep: string)
    requires |sep| > 0 && |pieces| >= 1
    requires forall i :: 0 <= i < |pieces| ==> sep[0] !in pieces[i]
    ensures Split(Join(pieces, sep), sep) == pieces
    decreases |pieces|
  {
    if |pieces| == 1 {
      assert Free(pieces[0], sep) by {
        forall j | 0 <= j < |pieces[0]| ensures !OccursAt(pieces[0], sep, j) {
          assert pieces[0][j] != sep[0];
        }
      }
      SplitFree(pieces[0], sep);
    } else {
      SplitAfter(pieces[0], sep, Join(pieces[1..], sep));
      SplitJoin(pieces[1..], sep);
      assert pieces == [pieces[0]] + pieces[1..];
    }
  }

  lemma FreeOfValueSeparator(s: string)
    ensures Free(s, ValueSeparator) <==> '=' !in s
  {
    if '=' in s {
      var j :| 0 <= j < |s| && s[j] == '=';
      assert s[j..j + 1] == ValueSeparator;
      assert OccursAt(s, ValueSeparator, j);
    } else {
      forall j | 0 <= j < |s| ensures !OccursAt(s, ValueSeparator, j) {
        assert s[j] != '=';
      }
    }
  }

  /** `piece.split('=')[0]`. */
  function Key(piece: string): (k: string)
    ensures k <= piece
  {
    Split(piece, ValueSeparator)[0]
  }

  /** `piece.split('=')[1]`; `undefined` when there is no second piece. */
  function Value(piece: string): (v: Option<string>)
    ensures v.None? ==> Key(piece) == piece
  {
    var parts := Split(piece, ValueSeparator);
    if |parts| > 1 then Some(parts[1]) else None
  }

  /** The key is the text before the first `=`, or the whole piece when it has none. */
  lemma KeyBeforeFirstEquals(piece: string)
    ensures '=' !in Key(piece)
    ensures var k := Key(piece);
      k == piece || (|k| < |piece| && piece[..|k|] == k && piece[|k|] == '=')
  {
    var parts := Split(piece, ValueSeparator);
    SplitJoinsBack(piece, ValueSeparator);
    SplitPiecesFree(piece, ValueSeparator);
    FreeOfValueSeparator(parts[0]);
    if |parts| > 1 {
      assert piece == parts[0] + "=" + Join(parts[1..], ValueSeparator);
    }
  }

  /**
    The value is `undefined` exactly when the piece has no `=`; otherwise it
    is the text between the first `=` and the next one (or the end), not
    everything after the first `=`.
  */
  lemma ValueBetweenEquals(piece: string)
    ensures Value(piece).None? <==> '=' !in piece
    ensures Value(piece).Some? ==> '=' !in Value(piece).value
    ensures Value(piece).Some? ==> var end := |Key(piece)| + 1 + |Value(piece).value|;
      end <= |piece| && piece[..end] == Key(piece) + "=" + Value(piece).value
      && (end == |piece| || piece[end] == '=')
  {
    var parts := Split(piece, ValueSeparator);
    SplitJoinsBack(piece, ValueSeparator);
    SplitPiecesFree(piece, ValueSeparator);
    if |parts| > 1 {
      var rest := Join(parts[1..], ValueSeparator);
      assert piece == parts[0] + "=" + rest;
      FreeOfValueSeparator(parts[1]);
      assert piece[|parts[0]|] == '=';
      if |parts| > 2 {
        assert rest == parts[1] + "=" + Join(parts[2..], ValueSeparator);
        assert piece[..|parts[0]| + 1 + |parts[1]|] == parts[0] + "=" + parts[1];
      }
    } else {
      FreeOfValueSeparator(piece);
    }
  }

  /**
    The object after assigning `obj[Key(p)] = Value(p)` for every piece `p`
    in order, starting from an empty object: a left fold, so a later piece
    with the same key overwrites an earlier one.
  */
  function Assign(pieces: seq<string>): (obj: map<string, Option<string>>)
    ensures pieces == [] <==> obj == map[]
    ensures pieces != [] ==> var last := pieces[|pieces| - 1];
      Key(last) in obj && obj[Key(last)] == Value(last)
    decreases |pieces|
  {
    if pieces == [] then map[]
    else
      var last := pieces[|pieces| - 1];
      Assign(pieces[..|pieces| - 1])[Key(last) := Value(last)]
  }

  /** The object `_convertStringToObj(str)` returns. */
  function Converted(str: string): (obj: map<string, Option<string>>)
    ensures obj != map[]
  {
    Assign(Split(str, AttributeSeparator))
  }

  /** `_convertStringToObj`: a loop over the pieces that updates one object. */
  method ConvertStringToObj(str: string) returns (obj: map<string, Option<string>>)
    ensures obj == Converted(str)
  {
    var pieces := Split(str, AttributeSeparator);
    obj := map[];
    for i := 0 to |pieces|
      invariant obj == Assign(pieces[..i])
    {
      assert pieces[..i + 1][..i] == pieces[..i];
      obj := obj[Key(pieces[i]) := Value(pieces[i])];
    }
    assert pieces[..|pieces|] == pieces;
  }

  /** The keys of the object are exactly the keys of the pieces. */
  lemma {:induction false} AssignKeys(pieces: seq<string>)
    ensures Assign(pieces).Keys == set p | p in pieces :: Key(p)
    decreases |pieces|
  {
    if pieces != [] {
      var init, last := pieces[..|pieces| - 1], pieces[|pieces| - 1];
      AssignKeys(init);
      assert pieces == init + [last];
      KeysOfSnoc(init, last);
    }
  }

  /** The keys of pieces with one more piece at the end. */
  lemma KeysOfSnoc(init: seq<string>, last: string)
    ensures (set p | p in init + [last] :: Key(p)) == (set p | p in init :: Key(p)) + {Key(last)}
  {
  }

  /** The value stored under a key is the value of the last piece with that key. */
  lemma {:induction false} AssignLastWins(pieces: seq<string>, i: nat)
    requires i < |pieces|
    requires forall j :: i < j < |pieces| ==> Key(pieces[j]) != Key(pieces[i])
    ensures Key(pieces[i]) in Assign(pieces)
    ensures Assign(pieces)[Key(pieces[i])] == Value(pieces[i])
    decreases |pieces|
  {
    if i < |pieces| - 1 {
      var init := pieces[..|pieces| - 1];
      AssignLastWins(init, i);
    }
  }

  /**
    A piece free of `", "` is split off first: the separator cannot overlap
    itself (a comma is never its second character), so no occurrence
    straddles the end of the piece.
  */
  lemma SplitAfterAttribute(a: string, b: string)
    requires Free(a, AttributeSeparator)
    ensures Split(a + AttributeSeparator + b, AttributeSeparator) == [a] + Split(b, AttributeSeparator)
  {
    var sep := AttributeSeparator;
    var s := a + sep + b;
    assert OccursAt(s, sep, |a|) by { assert s[|a|..|a| + |sep|] == sep; }
    forall j | 0 <= j < |a| ensures !OccursAt(s, sep, j) {
      if j + 2 <= |a| {
        assert s[j..j + 2] == a[j..j + 2];
        assert !OccursAt(a, sep, j);
      } else {
        assert s[j + 1] == ',';
      }
    }
    FirstOccurrenceIsLeftmost(s, sep);
    assert FirstOccurrence(s, sep) == Some(|a|);
    assert s[..|a|] == a && s[|a| + |sep|..] == b;
  }

  /** Splitting on `", "` undoes joining with it, for pieces free of `", "`. */
  lemma {:induction false} SplitJoinAttributes(pieces: seq<string>)
    requires |pieces| >= 1
    requires forall i :: 0 <= i < |pieces| ==> Free(pieces[i], AttributeSeparator)
    ensures Split(Join(pieces, AttributeSeparator), AttributeSeparator) == pieces
    decreases |pieces|
  {
    if |pieces| == 1 {
      SplitFree(pieces[0], AttributeSeparator);
    } else {
      SplitAfterAttribute(pieces[0], Join(pieces[1..], AttributeSeparator));
      SplitJoinAttributes(pieces[1..]);
      assert pieces == [pieces[0]] + pieces[1..];
    }
  }

  /**
    Text written as attributes joined by `", "`, none holding `", "`, is
    read back attribute by attribute.
  */
  lemma ConvertedJoin(pieces: seq<string>)
    requires |pieces| >= 1
    requires forall i :: 0 <= i < |pieces| ==> Free(pieces[i], AttributeSeparator)
    ensures Converted(Join(pieces, AttributeSeparator)) == Assign(pieces)
  {
    SplitJoinAttributes(pieces);
  }

  /** Text without a comma holds no `", "`. */
  lemma CommaFreeIsFree(s: string)
    requires ',' !in s
    ensures Free(s, AttributeSeparator)
  {
    forall j | 0 <= j < |s| ensures !OccursAt(s, AttributeSeparator, j) {
      assert s[j] != ',';
    }
  }

  /** An attribute written as `type=value`, neither part holding `=`, reads back as itself. */
  lemma KeyValueOfAttribute(key: string, value: string)
    requires '=' !in key && '=' !in value
    ensures Key(key + "=" + value) == key && Value(key + "=" + value) == Some(value)
  {
    SplitJoin([key, value], ValueSeparator);
    assert Join([key, value], ValueSeparator) == key + "=" + value;
  }

  /** Two pieces are assigned in order: the second assignment is applied to the result of the first. */
  lemma AssignPair(a1: string, a2: string)
    ensures Assign([a1, a2]) == map[Key(a1) := Value(a1)][Key(a2) := Value(a2)]
  {
    assert [a1, a2][..1] == [a1] && [a1][..0] == [];
    assert Assign([a1]) == map[Key(a1) := Value(a1)];
  }

  /** A name with two well-formed attributes converts to those two entries, the second applied last. */
  lemma ConvertedTwoAttributes(k1: string, v1: string, k2: string, v2: string)
    requires '=' !in k1 && '=' !in v1 && '=' !in k2 && '=' !in v2
    requires ',' !in k1 && ',' !in v1 && ',' !in k2 && ',' !in v2
    ensures Converted(k1 + "=" + v1 + AttributeSeparator + k2 + "=" + v2)
      == map[k1 := Some(v1)][k2 := Some(v2)]
  {
    var a1, a2 := k1 + "=" + v1, k2 + "=" + v2;
    assert ',' !in a1 && ',' !in a2;
    CommaFreeIsFree(a1);
    CommaFreeIsFree(a2);
    ConvertedJoin([a1, a2]);
    assert [a1, a2][1..] == [a2];
    assert Join([a1, a2], AttributeSeparator) == a1 + AttributeSeparator + a2;
    assert a1 + AttributeSeparator + a2 == k1 + "=" + v1 + AttributeSeparator + k2 + "=" + v2;
    KeyValueOfAttribute(k1, v1);
    KeyValueOfAttribute(k2, v2);
    AssignPair(a1, a2);
  }

  /**
    `_convertStringToObj("CN=Smith, O=Example")` is `{CN: "Smith", O: "Example"}`.
    (The text is a parameter so that the verifier does not evaluate the
    splitting of the literal eagerly.)
  */
  lemma ConvertedExample(str: string)
    requires str == "CN=Smith, O=Example"
    ensures Converted(str) == map["CN" := Some("Smith"), "O" := Some("Example")]
  {
    // Slices of the parameter, so that no literal reaches the splitting functions.
    var k1, v1, k2, v2 := str[..2], str[3..8], str[10..11], str[12..];
    assert k1 == "CN" && v1 == "Smith" && k2 == "O" && v2 == "Example";
    assert str == k1 + "=" + v1 + AttributeSeparator + k2 + "=" + v2;
    ConvertedTwoAttributes(k1, v1, k2, v2);
    assert Some(v1) == Some("Smith") && Some(v2) == Some("Example");
  }

  /** A piece without `=` stores the whole piece as a key whose value is `undefined`. */
  lemma PieceWithoutValue(piece: string)
    requires '=' !in piece
    ensures Key(piece) == piece && Value(piece) == None
  {
    FreeOfValueSeparator(piece);
    SplitFree(piece, ValueSeparator);
  }
}
