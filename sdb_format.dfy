/**
 * The SDB text form of a metadata record (ImageMetadata.__str__ and the
 * parsing half of ImageMetadata.fromString): `key=value` pairs separated by
 * tabs, and the regular expression `([^\t]*?)=(.*?)(?:\t|$)` that
 * re.findall uses to split such a text back into pairs.
 */
module SdbFormat {
  import opened Wrappers
  import opened Conversions
  import opened Schema

  /** A parsed or written `key=value` pair. */
  type Pair = (string, string)

  // ---------------------------------------------------------------------
  // re.findall('([^\t]*?)=(.*?)(?:\t|$)', text)
  // ---------------------------------------------------------------------

  /** Text that `.` matches throughout and that contains no separator. */
  predicate Clean(s: string)
  {
    forall i :: 0 <= i < |s| ==> s[i] != '\t' && s[i] != '\n'
  }

  /** Text that the lazy key group captures whole before the first '='. */
  predicate CleanKey(s: string)
  {
    forall i :: 0 <= i < |s| ==> s[i] != '\t' && s[i] != '='
  }

  /**
   * `(.*?)(?:\t|$)` matched at the start of t: the shortest value followed
   * by a tab (consumed) or by the end of the text, where `$` also matches
   * just before a final newline. Yields the value and the text after the match.
   */
  function ValueMatch(t: string): (r: Option<(string, string)>)
    ensures r.Some? ==> |r.value.0| + |r.value.1| <= |t| && Clean(r.value.0)
  {
    if t == [] then Some(([], []))
    else if t[0] == '\t' then Some(([], t[1..]))
    else if t[0] == '\n' then (if |t| == 1 then Some(([], t)) else None)
    else
      match ValueMatch(t[1..])
      case None => None
      case Some((v, rest)) => Some(([t[0]] + v, rest))
  }

  /**
   * The whole pattern matched at the start of t. The key group is lazy and
   * cannot cross a tab, so the match uses the first '=' after which the
   * value group can match. Yields key, value and the text after the match.
   */
  function PatternMatch(t: string): (r: Option<(string, string, string)>)
    ensures r.Some? ==> |r.value.0| + 1 + |r.value.1| + |r.value.2| <= |t|
    ensures r.Some? ==> '\t' !in r.value.0 && Clean(r.value.1)
  {
    if t == [] || t[0] == '\t' then None
    else if t[0] == '=' && ValueMatch(t[1..]).Some? then
      Some(([], ValueMatch(t[1..]).value.0, ValueMatch(t[1..]).value.1))
    else
      match PatternMatch(t[1..])
      case None => None
      case Some((k, v, rest)) => Some(([t[0]] + k, v, rest))
  }

  /** re.findall: the captured pairs of successive non-overlapping matches, scanning left to right. */
  function FindAll(t: string): (ps: seq<Pair>)
    ensures forall i :: 0 <= i < |ps| ==> '\t' !in ps[i].0 && Clean(ps[i].1)
    decreases |t|
  {
    if t == [] then []
    else
      match PatternMatch(t)
      case Some((k, v, rest)) => [(k, v)] + FindAll(rest)
      case None => FindAll(t[1..])
  }

  // ---------------------------------------------------------------------
  // Writing pairs
  // ---------------------------------------------------------------------

  /** Every pair can be written and found again: clean keys, clean values. */
  predicate WellFormed(ps: seq<Pair>)
  {
    forall i :: 0 <= i < |ps| ==> CleanKey(ps[i].0) && Clean(ps[i].1)
  }

  /** `key=value\t` for each pair, as the loop of __str__ accumulates them. */
  function PairsText(ps: seq<Pair>): string
  {
    if ps == [] then [] else ps[0].0 + "=" + ps[0].1 + "\t" + PairsText(ps[1..])
  }

  lemma {:induction false} PairsTextAppend(ps: seq<Pair>, qs: seq<Pair>)
    ensures PairsText(ps + qs) == PairsText(ps) + PairsText(qs)
  {
    if ps != [] {
      assert (ps + qs)[0] == ps[0] && (ps + qs)[1..] == ps[1..] + qs;
      PairsTextAppend(ps[1..], qs);
    } else {
      assert ps + qs == qs;
    }
  }

  /** The pairs joined by tabs, with no tab after the last one. */
  function JoinPairs(ps: seq<Pair>): string
    requires ps != []
  {
    if |ps| == 1 then ps[0].0 + "=" + ps[0].1
    else ps[0].0 + "=" + ps[0].1 + "\t" + JoinPairs(ps[1..])
  }

  /** The text `%s` gives for a stored entry: the value's str(), or "None". */
  function Render(v: Option<Value>): string
  {
    match v
    case None => "None"
    case Some(x) => StrOf(AsRaw(x))
  }

  /** The pairs __str__ writes for a record, in schema order, skipping absent fields. */
  function Pairs(d: Data, fs: seq<Field>): (ps: seq<Pair>)
    ensures |ps| <= |fs|
  {
    if fs == [] then []
    else (if fs[0] in d then [(Name(fs[0]), Render(d[fs[0]]))] else []) + Pairs(d, fs[1..])
  }

  /** Each written pair belongs to a present field. */
  lemma {:induction false} PairOfField(d: Data, fs: seq<Field>, i: nat) returns (f: Field)
    requires i < |Pairs(d, fs)|
    ensures f in fs && f in d && Pairs(d, fs)[i] == (Name(f), Render(d[f]))
  {
    var head := if fs[0] in d then [(Name(fs[0]), Render(d[fs[0]]))] else [];
    if i < |head| {
      f := fs[0];
    } else {
      f := PairOfField(d, fs[1..], i - |head|);
    }
  }

  /** The pairs __str__ writes for a record that holds nothing: `key=None` for every field. */
  function UnreadPairs(fs: seq<Field>): (ps: seq<Pair>)
    ensures |ps| == |fs|
    ensures forall i :: 0 <= i < |fs| ==> ps[i] == (Name(fs[i]), "None")
  {
    if fs == [] then [] else [(Name(fs[0]), "None")] + UnreadPairs(fs[1..])
  }

  /** The text of the pairs for fields fs: the first field's pair, if present, then the rest. */
  lemma PairsTextStep(d: Data, fs: seq<Field>)
    requires fs != []
    ensures PairsText(Pairs(d, fs)) ==
      (if fs[0] in d then Name(fs[0]) + "=" + Render(d[fs[0]]) + "\t" else "") + PairsText(Pairs(d, fs[1..]))
  {
    var rest := Pairs(d, fs[1..]);
    if fs[0] in d {
      var p := (Name(fs[0]), Render(d[fs[0]]));
      assert Pairs(d, fs) == [p] + rest;
      assert ([p] + rest)[0] == p && ([p] + rest)[1..] == rest;
    } else {
      assert Pairs(d, fs) == rest;
    }
  }

  lemma UnreadTextStep(fs: seq<Field>)
    requires fs != []
    ensures PairsText(UnreadPairs(fs)) == Name(fs[0]) + "=None\t" + PairsText(UnreadPairs(fs[1..]))
  {
    assert UnreadPairs(fs)[1..] == UnreadPairs(fs[1..]);
    NoneText(Name(fs[0]), PairsText(UnreadPairs(fs[1..])));
  }

  lemma NoneText(k: string, rest: string)
    ensures k + "=" + "None" + "\t" + rest == k + "=None\t" + rest
  {
  }

  /**
   * The key order of the text does not depend on the record: a record
   * holding origtime, comment, aperture, flength and flength35 is written
   * in KEYS order, comment first and aperture last.
   */
  lemma FiveFieldRecordWrittenInKeyOrder(d: Data)
    requires Origtime in d && Comment in d && Aperture in d && Flength in d && Flength35 in d
    requires Exposure !in d && Iso !in d && Rating !in d
    ensures |Entries(d)| == 5
    ensures Entries(d)[0].0 == Name(Comment) && Entries(d)[1].0 == Name(Flength35) && Entries(d)[2].0 == Name(Flength)
    ensures Entries(d)[3].0 == Name(Origtime) && Entries(d)[4].0 == Name(Aperture)
  {
    assert Comment in d;
    PairsFrom(d, Fields, 7);
    PairsFrom(d, Fields, 6);
    PairsFrom(d, Fields, 5);
    PairsFrom(d, Fields, 4);
    PairsFrom(d, Fields, 3);
    PairsFrom(d, Fields, 2);
    PairsFrom(d, Fields, 1);
    PairsFrom(d, Fields, 0);
  }

  /** The pairs from position k on: field k's pair, if present, then those after it. */
  lemma PairsFrom(d: Data, fs: seq<Field>, k: nat)
    requires k < |fs|
    ensures Pairs(d, fs[k..]) == (if fs[k] in d then [(Name(fs[k]), Render(d[fs[k]]))] else []) + Pairs(d, fs[k + 1..])
  {
    assert fs[k..][1..] == fs[k + 1..];
  }

  /** The pairs written for a record, before the trailing whitespace is stripped. */
  function Entries(d: Data): seq<Pair>
  {
    if d != map[] then Pairs(d, Fields) else UnreadPairs(Fields)
  }

  /**
   * __str__: the written pairs with all trailing whitespace removed, and
   * nothing else; the text never ends in whitespace.
   */
  function Serialize(d: Data): (s: string)
    ensures |s| <= |PairsText(Entries(d))| && s == PairsText(Entries(d))[..|s|]
    ensures forall i :: |s| <= i < |PairsText(Entries(d))| ==> IsSpace(PairsText(Entries(d))[i])
    ensures s == [] || !IsSpace(s[|s| - 1])
  {
    RStrip(PairsText(Entries(d)))
  }

  // ---------------------------------------------------------------------
  // Properties of the format
  // ---------------------------------------------------------------------

  lemma {:induction false} ValueMatchClean(v: string, tail: string)
    requires Clean(v)
    requires tail == [] || tail[0] == '\t'
    ensures ValueMatch(v + tail) == Some((v, if tail == [] then [] else tail[1..]))
  {
    if v != [] {
      assert (v + tail)[1..] == v[1..] + tail;
      ValueMatchClean(v[1..], tail);
      assert [v[0]] + v[1..] == v;
    } else {
      assert v + tail == tail;
    }
  }

  lemma {:induction false} PatternMatchClean(k: string, v: string, tail: string)
    requires CleanKey(k) && Clean(v)
    requires tail == [] || tail[0] == '\t'
    ensures PatternMatch(k + "=" + v + tail) == Some((k, v, if tail == [] then [] else tail[1..]))
  {
    var t := k + "=" + v + tail;
    if k == [] {
      assert t[1..] == v + tail;
      ValueMatchClean(v, tail);
    } else {
      assert t[0] == k[0];
      assert t[1..] == k[1..] + "=" + v + tail;
      PatternMatchClean(k[1..], v, tail);
      assert [k[0]] + k[1..] == k;
    }
  }

  /** re.findall recovers every pair of a written text that still ends in its tab. */
  lemma {:induction false} FindAllPairsText(ps: seq<Pair>)
    requires WellFormed(ps)
    ensures FindAll(PairsText(ps)) == ps
  {
    if ps != [] {
      var (k, v) := ps[0];
      var rest := PairsText(ps[1..]);
      assert PairsText(ps) == k + "=" + v + ("\t" + rest);
      PatternMatchClean(k, v, "\t" + rest);
      assert ("\t" + rest)[1..] == rest;
      FindAllPairsText(ps[1..]);
      assert [(k, v)] + ps[1..] == ps;
    }
  }

  /** re.findall recovers every pair of a tab-joined text; `$` ends the last value. */
  lemma {:induction false} FindAllJoinPairs(ps: seq<Pair>)
    requires ps != [] && WellFormed(ps)
    ensures FindAll(JoinPairs(ps)) == ps
  {
    var (k, v) := ps[0];
    if |ps| == 1 {
      assert JoinPairs(ps) == k + "=" + v + [];
      PatternMatchClean(k, v, []);
      assert FindAll([]) == [];
    } else {
      var rest := JoinPairs(ps[1..]);
      assert JoinPairs(ps) == k + "=" + v + ("\t" + rest);
      PatternMatchClean(k, v, "\t" + rest);
      assert ("\t" + rest)[1..] == rest;
      FindAllJoinPairs(ps[1..]);
      assert [(k, v)] + ps[1..] == ps;
    }
  }

  lemma {:induction false} PairsTextIsJoined(ps: seq<Pair>)
    requires ps != []
    ensures PairsText(ps) == JoinPairs(ps) + "\t"
  {
    if |ps| > 1 {
      PairsTextIsJoined(ps[1..]);
    } else {
      assert ps[1..] == [];
    }
  }

  /** Does the text end with a character rstrip() removes? */
  predicate EndsInSpace(s: string)
  {
    s != [] && IsSpace(s[|s| - 1])
  }

  /**
   * rstrip() removes only the trailing tab when the last value does not
   * itself end in whitespace.
   */
  lemma StripOnlyFinalTab(ps: seq<Pair>)
    requires ps != [] && !EndsInSpace(ps[|ps| - 1].1)
    ensures RStrip(PairsText(ps)) == JoinPairs(ps)
  {
    PairsTextIsJoined(ps);
    var j := JoinPairs(ps);
    LastOfJoin(ps);
    assert (j + "\t")[..|j + "\t"| - 1] == j;
  }

  lemma {:induction false} LastOfJoin(ps: seq<Pair>)
    requires ps != []
    ensures |JoinPairs(ps)| > 0
    ensures JoinPairs(ps)[|JoinPairs(ps)| - 1] ==
            (if ps[|ps| - 1].1 == [] then '=' else ps[|ps| - 1].1[|ps[|ps| - 1].1| - 1])
  {
    if |ps| > 1 {
      LastOfJoin(ps[1..]);
    }
  }

  /** A record whose written values are all clean and none ends in whitespace. */
  predicate Writable(d: Data)
  {
    forall f | f in d :: Clean(Render(d[f])) && !EndsInSpace(Render(d[f]))
  }

  /** Numbers and None are always writable; only text values can break the format. */
  lemma NumbersWritable(v: Option<Value>)
    requires v.None? || !v.value.Str?
    ensures Clean(Render(v)) && !EndsInSpace(Render(v))
  {
    if v.Some? {
      NumberTextChars(AsRaw(v.value));
    }
  }

  lemma {:induction false} PairsWellFormed(d: Data, fs: seq<Field>)
    requires Writable(d)
    ensures WellFormed(Pairs(d, fs))
    ensures Pairs(d, fs) != [] ==> !EndsInSpace(Pairs(d, fs)[|Pairs(d, fs)| - 1].1)
  {
    var ps := Pairs(d, fs);
    forall i | 0 <= i < |ps| ensures CleanKey(ps[i].0) && Clean(ps[i].1) && !EndsInSpace(ps[i].1) {
      var f := PairOfField(d, fs, i);
      NameIsCleanKey(f);
    }
  }

  lemma NameIsCleanKey(f: Field)
    ensures CleanKey(Name(f)) && |Name(f)| > 0
  {
  }

  lemma {:induction false} PairsOfPresentField(d: Data, fs: seq<Field>, f: Field)
    requires f in fs && f in d
    ensures Pairs(d, fs) != []
  {
    if fs[0] != f {
      PairsOfPresentField(d, fs[1..], f);
    }
  }

  lemma UnreadWellFormed(fs: seq<Field>)
    ensures WellFormed(UnreadPairs(fs))
  {
    forall i | 0 <= i < |fs| ensures CleanKey(UnreadPairs(fs)[i].0) {
      NameIsCleanKey(fs[i]);
    }
  }

  /**
   * A record that holds something is written as its present fields' pairs in
   * schema order, tab-joined, and re.findall reads exactly those pairs back.
   */
  lemma SerializePresent(d: Data)
    requires d != map[] && Writable(d)
    ensures Pairs(d, Fields) != []
    ensures Serialize(d) == JoinPairs(Pairs(d, Fields))
    ensures FindAll(Serialize(d)) == Pairs(d, Fields)
  {
    var f :| f in d;
    SchemaIsClosed();
    PairsOfPresentField(d, Fields, f);
    PairsWellFormed(d, Fields);
    StripOnlyFinalTab(Pairs(d, Fields));
    FindAllJoinPairs(Pairs(d, Fields));
  }

  /** A record that holds nothing is written as `key=None` for every field, and read back as such. */
  lemma SerializeUnread()
    ensures Serialize(map[]) == JoinPairs(UnreadPairs(Fields))
    ensures FindAll(Serialize(map[])) == UnreadPairs(Fields)
    ensures forall i :: 0 <= i < |Fields| ==> FindAll(Serialize(map[]))[i] == (Name(Fields[i]), "None")
  {
    var ps := UnreadPairs(Fields);
    assert ps[|ps| - 1].1 == "None";
    StripOnlyFinalTab(ps);
    UnreadWellFormed(Fields);
    FindAllJoinPairs(ps);
  }

  /**
   * rstrip() does more than remove the trailing tab: a text value that is
   * written last and ends in a space loses that space.
   */
  lemma TrailingSpaceOfLastValueLost()
    ensures Serialize(map[Comment := Some(Str("a "))]) == "comment=a"
  {
    assert Comment in map[Comment := Some(Str("a "))];
    OnlyCommentWritten();
    StrippedCommentText();
  }

  /** rstrip() removes the tab and the value's own trailing space alike. */
  lemma StrippedCommentText()
    ensures RStrip(PairsText([("comment", "a ")])) == "comment=a"
  {
    var s0, s1, s2 := "comment=a \t", "comment=a ", "comment=a";
    assert PairsText([("comment", "a ")]) == s0 by {
      assert [("comment", "a ")][1..] == [];
    }
    assert s0[..|s0| - 1] == s1 && s1[..|s1| - 1] == s2;
    assert RStrip(s0) == RStrip(s1) == RStrip(s2) == s2;
  }

  lemma OnlyCommentWritten()
    ensures Pairs(map[Comment := Some(Str("a "))], Fields) == [("comment", "a ")]
  {
    assert Fields[0] == Comment && Comment !in Fields[1..];
    SingleFieldPairs(Comment, Some(Str("a ")), Fields);
  }

  /** A record holding one field is written as that field's pair alone. */
  lemma SingleFieldPairs(f: Field, v: Option<Value>, fs: seq<Field>)
    requires fs != [] && fs[0] == f && f !in fs[1..]
    ensures Pairs(map[f := v], fs) == [(Name(f), Render(v))]
  {
    PairsWithout(map[f := v], fs[1..]);
  }


  lemma {:induction false} PairsWithout(d: Data, fs: seq<Field>)
    requires forall i :: 0 <= i < |fs| ==> fs[i] !in d
    ensures Pairs(d, fs) == []
  {
    if fs != [] {
      PairsWithout(d, fs[1..]);
    }
  }
}
