/**
 * The metadata record of one image file (class ImageMetadata): a dictionary
 * from schema fields to typed values, filled from a name-to-value map
 * (fromVals), from its own SDB text (fromString) or from the metadata keys
 * of the file (read), and written back as SDB text (__str__).
 */
module ImageMetadata {
  import opened Wrappers
  import opened Conversions
  import opened Schema
  import opened SdbFormat

  // ---------------------------------------------------------------------
  // fromString
  // ---------------------------------------------------------------------

  /** TYPES[key](val) for a text, with a ValueError caught and stored as None. */
  function ParseEntry(f: Field, text: string): (v: Option<Value>)
    ensures v.Some? ==> HasType(v.value, TypeOf(f))
    ensures TypeOf(f) == StrType ==> v == Some(Str(text))
  {
    match Construct(TypeOf(f), RawStr(text))
    case Ok(x) => Some(x)
    case Err(_) => None
  }

  /**
   * The loop of fromString over the parsed pairs: each pair overwrites its
   * field; a key outside the schema raises KeyError at the TYPES lookup and
   * stops the loop, keeping what was stored before it.
   */
  function StoreStrings(d: Data, ps: seq<Pair>): (r: (Data, Outcome<Error>))
    ensures r.1 == Pass || r.1 == Fail(KeyError)
    ensures WellTyped(d) ==> WellTyped(r.0)
    decreases ps
  {
    if ps == [] then (d, Pass)
    else
      match FieldNamed(ps[0].0)
      case None => (d, Fail(KeyError))
      case Some(f) => StoreStrings(d[f := ParseEntry(f, ps[0].1)], ps[1..])
  }

  /** Every key names a schema field. */
  predicate KnownKeys(ps: seq<Pair>)
  {
    forall i :: 0 <= i < |ps| ==> FieldNamed(ps[i].0).Some?
  }

  /** The value of the last pair with key k, if any. */
  function LastText(ps: seq<Pair>, k: string): Option<string>
  {
    if ps == [] then None
    else
      match LastText(ps[1..], k)
      case Some(v) => Some(v)
      case None => if ps[0].0 == k then Some(ps[0].1) else None
  }

  /**
   * Per-field isolation: with every key known, each named field ends up with
   * the conversion of its last text (None where that conversion fails), and
   * every other field keeps what it had.
   */
  lemma {:induction false} StoreStringsFields(d: Data, ps: seq<Pair>)
    requires KnownKeys(ps)
    ensures StoreStrings(d, ps).1 == Pass
    ensures forall f :: LastText(ps, Name(f)).Some? ==>
      f in StoreStrings(d, ps).0 && StoreStrings(d, ps).0[f] == ParseEntry(f, LastText(ps, Name(f)).value)
    ensures forall f :: LastText(ps, Name(f)).None? ==>
      (f in StoreStrings(d, ps).0 <==> f in d) && (f in d ==> StoreStrings(d, ps).0[f] == d[f])
    decreases ps
  {
    if ps != [] {
      var g := FieldNamed(ps[0].0).value;
      var d' := d[g := ParseEntry(g, ps[0].1)];
      assert KnownKeys(ps[1..]) by {
        forall i | 0 <= i < |ps[1..]| ensures FieldNamed(ps[1..][i].0).Some? {
          assert ps[1..][i] == ps[i + 1];
        }
      }
      StoreStringsFields(d', ps[1..]);
      SchemaIsClosed();
    }
  }

  /**
   * A key outside the schema stops fromString with KeyError; the pairs before
   * it have been stored, the pairs after it have not.
   */
  lemma {:induction false} StoreStringsUnknownKey(d: Data, ps: seq<Pair>, j: nat)
    requires j < |ps| && FieldNamed(ps[j].0).None?
    requires KnownKeys(ps[..j])
    ensures StoreStrings(d, ps) == (StoreStrings(d, ps[..j]).0, Fail(KeyError))
    decreases j
  {
    if j > 0 {
      assert ps[..j][0] == ps[0];
      var f := FieldNamed(ps[0].0).value;
      var q := ps[..j];
      assert ps[1..][..j - 1] == q[1..];
      assert KnownKeys(q[1..]) by {
        forall i | 0 <= i < |q[1..]| ensures FieldNamed(q[1..][i].0).Some? {
          assert q[1..][i] == q[i + 1];
        }
      }
      StoreStringsUnknownKey(d[f := ParseEntry(f, ps[0].1)], ps[1..], j - 1);
    }
  }

  // ---------------------------------------------------------------------
  // The round trip __str__ / fromString
  // ---------------------------------------------------------------------

  /**
   * An entry that fromString restores from its own text: a text without tab
   * or newline and not ending in whitespace, an integer, an integral float,
   * or None in a numeric field (where the text "None" fails to convert).
   */
  predicate Restorable(f: Field, v: Option<Value>)
  {
    match v
    case None => TypeOf(f) != StrType
    case Some(Str(s)) => Clean(s) && !EndsInSpace(s)
    case Some(Float(r)) => r == r.Floor as real
    case Some(Int(_)) => true
  }

  lemma RestorableWritten(f: Field, v: Option<Value>)
    requires Restorable(f, v)
    ensures Clean(Render(v)) && !EndsInSpace(Render(v))
  {
    if v.None? || !v.value.Str? {
      NumbersWritable(v);
    }
  }

  lemma NoneIsNotANumber()
    ensures ParseFloat("None") == None && ParseInt("None") == None
  {
    assert SplitSign("None") == (false, "None");
    assert !IsDigit("None"[0]);
    assert IndexOf("None", '.') == None;
    assert IndexOf("None", '/') == None;
  }

  /** The text `%s` writes for a restorable entry converts back to the entry. */
  lemma ParseRendered(f: Field, v: Option<Value>)
    requires Restorable(f, v) && (v.Some? ==> HasType(v.value, TypeOf(f)))
    ensures ParseEntry(f, Render(v)) == v
  {
    match v
    case None => NoneIsNotANumber();
    case Some(Str(_)) =>
    case Some(Int(i)) => IntTextRoundTrip(i);
    case Some(Float(r)) =>
      var n := r.Floor;
      FloatTextRoundTripIntegral(n);
  }

  /** The fields of d that fs lists. */
  function Restrict(d: Data, fs: seq<Field>): Data
  {
    map f | f in d && f in fs :: d[f]
  }

  /** One step of fromString: a known key stores its converted text. */
  lemma StoreStringsCons(e: Data, f: Field, text: string, rest: seq<Pair>)
    ensures StoreStrings(e, [(Name(f), text)] + rest) == StoreStrings(e[f := ParseEntry(f, text)], rest)
  {
    NameRoundTrip(f);
    assert ([(Name(f), text)] + rest)[1..] == rest;
  }

  lemma {:induction false} StoreWrittenPairs(e: Data, d: Data, fs: seq<Field>)
    requires WellTyped(d)
    requires forall f | f in d :: Restorable(f, d[f])
    ensures StoreStrings(e, Pairs(d, fs)) == (e + Restrict(d, fs), Pass)
    decreases fs
  {
    if fs == [] {
      assert Restrict(d, fs) == map[];
      assert e + map[] == e;
    } else {
      var f := fs[0];
      var rest := Pairs(d, fs[1..]);
      if f in d {
        ParseRendered(f, d[f]);
        assert Pairs(d, fs) == [(Name(f), Render(d[f]))] + rest;
        StoreStringsCons(e, f, Render(d[f]), rest);
        StoreWrittenPairs(e[f := d[f]], d, fs[1..]);
        RestrictCons(e, d, fs);
      } else {
        assert Pairs(d, fs) == rest;
        StoreWrittenPairs(e, d, fs[1..]);
        assert Restrict(d, fs[1..]) == Restrict(d, fs);
      }
    }
  }

  lemma RestrictCons(e: Data, d: Data, fs: seq<Field>)
    requires fs != [] && fs[0] in d
    ensures e[fs[0] := d[fs[0]]] + Restrict(d, fs[1..]) == e + Restrict(d, fs)
  {
  }

  /**
   * Round trip: reading back the text __str__ writes for a record that holds
   * something restores exactly that record.
   */
  lemma RoundTrip(d: Data)
    requires d != map[] && WellTyped(d)
    requires forall f | f in d :: Restorable(f, d[f])
    ensures StoreStrings(map[], FindAll(Serialize(d))) == (d, Pass)
  {
    forall f | f in d ensures Clean(Render(d[f])) && !EndsInSpace(Render(d[f])) {
      RestorableWritten(f, d[f]);
    }
    SerializePresent(d);
    StoreWrittenPairs(map[], d, Fields);
    RestrictToAllFields(d);
  }

  lemma RestrictToAllFields(d: Data)
    ensures map[] + Restrict(d, Fields) == d
  {
    forall f | f in d ensures f in Fields {
      FieldListed(f);
    }
  }

  /** What fromString makes of the `key=None` text of an unread record. */
  function UnreadEntry(f: Field): Option<Value>
  {
    if TypeOf(f) == StrType then Some(Str("None")) else None
  }

  lemma ParseEntryOfNone(f: Field)
    ensures ParseEntry(f, "None") == UnreadEntry(f)
  {
    NoneIsNotANumber();
  }

  /** The fields fs lists, each with UnreadEntry. */
  function UnreadRecord(fs: seq<Field>): Data
  {
    map f | f in fs :: UnreadEntry(f)
  }

  lemma UnreadRecordCons(e: Data, fs: seq<Field>)
    requires fs != []
    ensures e[fs[0] := UnreadEntry(fs[0])] + UnreadRecord(fs[1..]) == e + UnreadRecord(fs)
  {
  }

  lemma {:induction false} StoreUnreadPairs(e: Data, fs: seq<Field>)
    ensures StoreStrings(e, UnreadPairs(fs)) == (e + UnreadRecord(fs), Pass)
    decreases fs
  {
    if fs == [] {
      assert UnreadRecord(fs) == map[];
      assert e + map[] == e;
    } else {
      var f := fs[0];
      ParseEntryOfNone(f);
      assert UnreadPairs(fs) == [(Name(f), "None")] + UnreadPairs(fs[1..]);
      StoreStringsCons(e, f, "None", UnreadPairs(fs[1..]));
      StoreUnreadPairs(e[f := UnreadEntry(f)], fs[1..]);
      UnreadRecordCons(e, fs);
    }
  }

  /**
   * Reading back the text of an unread record gives every field: the text
   * "None" in text fields, None in numeric ones.
   */
  lemma UnreadRoundTrip()
    ensures StoreStrings(map[], FindAll(Serialize(map[]))) == (UnreadRecord(Fields), Pass)
  {
    SerializeUnread();
    StoreUnreadPairs(map[], Fields);
    EmptyUnion(UnreadRecord(Fields));
  }

  lemma EmptyUnion(d: Data)
    ensures map[] + d == d
  {
  }

  /** The record read back from an unread record's text has every field. */
  lemma UnreadRecordHasEveryField(f: Field)
    ensures f in UnreadRecord(Fields) && UnreadRecord(Fields)[f] == UnreadEntry(f)
  {
    FieldListed(f);
  }

  // ---------------------------------------------------------------------
  // fromVals
  // ---------------------------------------------------------------------

  /**
   * The loop of fromVals over the given name-to-value items: unknown names
   * and None values are skipped; a value the field's type constructor
   * rejects raises, stopping the loop.
   */
  function StoreVals(d: Data, vals: seq<(string, Option<Raw>)>): (r: (Data, Outcome<Error>))
    ensures r.1.Fail? ==> r.1.error == ValueError || r.1.error == TypeError
    ensures WellTyped(d) ==> WellTyped(r.0)
    ensures (forall f | f in d :: d[f].Some?) ==> forall f | f in r.0 :: r.0[f].Some?
    decreases vals
  {
    if vals == [] then (d, Pass)
    else
      match FieldNamed(vals[0].0)
      case None => StoreVals(d, vals[1..])
      case Some(f) =>
        if vals[0].1.None? then StoreVals(d, vals[1..])
        else
          match Construct(TypeOf(f), vals[0].1.value)
          case Ok(x) => StoreVals(d[f := Some(x)], vals[1..])
          case Err(e) => (d, Fail(e))
  }

  /** The last non-None value given for key k, if any. */
  function LastGiven(vals: seq<(string, Option<Raw>)>, k: string): Option<Raw>
  {
    if vals == [] then None
    else
      match LastGiven(vals[1..], k)
      case Some(x) => Some(x)
      case None => if vals[0].0 == k then vals[0].1 else None
  }

  /** Every value given for a schema field converts to the field's type. */
  predicate AllConvert(vals: seq<(string, Option<Raw>)>)
  {
    forall i :: 0 <= i < |vals| && FieldNamed(vals[i].0).Some? && vals[i].1.Some? ==>
      Construct(TypeOf(FieldNamed(vals[i].0).value), vals[i].1.value).Ok?
  }

  /**
   * fromVals succeeds exactly when every value given for a schema field
   * converts; the record then holds exactly the fields given a non-None
   * value, each with the conversion of the last value given for it.
   */
  lemma {:induction false} StoreValsFields(d: Data, vals: seq<(string, Option<Raw>)>)
    ensures StoreVals(d, vals).1 == Pass <==> AllConvert(vals)
    ensures AllConvert(vals) ==> forall f :: LastGiven(vals, Name(f)).Some? ==>
      f in StoreVals(d, vals).0 && Construct(TypeOf(f), LastGiven(vals, Name(f)).value).Ok? &&
      StoreVals(d, vals).0[f] == Some(Construct(TypeOf(f), LastGiven(vals, Name(f)).value).value)
    ensures AllConvert(vals) ==> forall f :: LastGiven(vals, Name(f)).None? ==>
      (f in StoreVals(d, vals).0 <==> f in d) && (f in d ==> StoreVals(d, vals).0[f] == d[f])
    decreases vals
  {
    if vals != [] {
      var (k, v) := vals[0];
      AllConvertCons(vals);
      SchemaIsClosed();
      match FieldNamed(k)
      case None =>
        StoreValsFields(d, vals[1..]);
      case Some(f) =>
        if v.None? {
          StoreValsFields(d, vals[1..]);
        } else {
          match Construct(TypeOf(f), v.value)
          case Ok(x) => StoreValsFields(d[f := Some(x)], vals[1..]);
          case Err(_) =>
        }
    }
  }
  lemma AllConvertCons(vals: seq<(string, Option<Raw>)>)
    requires vals != []
    ensures AllConvert(vals) <==>
      (FieldNamed(vals[0].0).Some? && vals[0].1.Some? ==> Construct(TypeOf(FieldNamed(vals[0].0).value), vals[0].1.value).Ok?) &&
      AllConvert(vals[1..])
  {
    if AllConvert(vals) {
      forall i | 0 <= i < |vals[1..]| && FieldNamed(vals[1..][i].0).Some? && vals[1..][i].1.Some?
        ensures Construct(TypeOf(FieldNamed(vals[1..][i].0).value), vals[1..][i].1.value).Ok?
      {
        assert vals[1..][i] == vals[i + 1];
      }
    }
    if AllConvert(vals[1..]) {
      forall i | 0 < i < |vals| ensures vals[i] == vals[1..][i - 1] {
      }
    }
  }


  /** fromVals ignores an item whose name is not a schema field, whether it succeeds or not. */
  lemma {:induction false} StoreValsIgnoresUnknown(d: Data, vals: seq<(string, Option<Raw>)>, j: nat)
    requires j < |vals| && FieldNamed(vals[j].0).None?
    ensures StoreVals(d, vals) == StoreVals(d, vals[..j] + vals[j + 1..])
    decreases j
  {
    var without := vals[..j] + vals[j + 1..];
    if j == 0 {
      assert without == vals[1..];
    } else {
      assert without[0] == vals[0];
      assert without[1..] == vals[1..][..j - 1] + vals[1..][j..];
      match FieldNamed(vals[0].0)
      case None =>
        StoreValsIgnoresUnknown(d, vals[1..], j - 1);
      case Some(f) =>
        if vals[0].1.None? {
          StoreValsIgnoresUnknown(d, vals[1..], j - 1);
        } else if Construct(TypeOf(f), vals[0].1.value).Ok? {
          StoreValsIgnoresUnknown(d[f := Some(Construct(TypeOf(f), vals[0].1.value).value)], vals[1..], j - 1);
        }
    }
  }

  // ---------------------------------------------------------------------
  // read
  // ---------------------------------------------------------------------

  /** float(x) or int(x) or str(x) of a source value, when it does not raise. */
  function Converted(f: Field, m: map<string, Raw>, key: string): (r: Option<Value>)
    ensures r.Some? ==> key in m && HasType(r.value, TypeOf(f))
  {
    if key in m && Construct(TypeOf(f), m[key]).Ok? then Some(Construct(TypeOf(f), m[key]).value) else None
  }

  /**
   * The inner loop of read for one field: the source keys tried in order;
   * each one present whose value converts is stored, so a later one overwrites.
   */
  function PickField(d: Data, f: Field, keys: seq<string>, m: map<string, Raw>): (r: Data)
    ensures WellTyped(d) ==> WellTyped(r)
    decreases keys
  {
    if keys == [] then d
    else
      match Converted(f, m, keys[0])
      case Some(v) => PickField(d[f := Some(v)], f, keys[1..], m)
      case None => PickField(d, f, keys[1..], m)
  }

  /** The outer loop of read: every field in schema order. */
  function PickAll(d: Data, fs: seq<Field>, m: map<string, Raw>): (r: Data)
    ensures WellTyped(d) ==> WellTyped(r)
    decreases fs
  {
    if fs == [] then d else PickAll(PickField(d, fs[0], SourceKeys(fs[0]), m), fs[1..], m)
  }

  /**
   * What read stores: nothing when the file's metadata could not be read
   * (None), otherwise the selected value of every field that has one. The
   * map gives, for each metadata key the file has, the value getExivField
   * returns for it.
   */
  function ReadData(source: Option<map<string, Raw>>): (r: Data)
    ensures WellTyped(r)
  {
    match source
    case None => map[]
    case Some(m) => PickAll(map[], Fields, m)
  }

  /** Reference selection: the value of the last source key, in list order, that is present and converts. */
  function LastConverting(f: Field, keys: seq<string>, m: map<string, Raw>): Option<Value>
  {
    if keys == [] then None
    else
      match Converted(f, m, keys[|keys| - 1])
      case Some(v) => Some(v)
      case None => LastConverting(f, keys[..|keys| - 1], m)
  }

  lemma {:induction false} PickFieldSnoc(d: Data, f: Field, keys: seq<string>, k: string, m: map<string, Raw>)
    ensures PickField(d, f, keys + [k], m) ==
      (match Converted(f, m, k) case Some(v) => PickField(d, f, keys, m)[f := Some(v)] case None => PickField(d, f, keys, m))
    decreases keys
  {
    if keys == [] {
      assert ([] + [k])[1..] == [];
      assert [] + [k] == [k];
    } else {
      assert (keys + [k])[0] == keys[0] && (keys + [k])[1..] == keys[1..] + [k];
      match Converted(f, m, keys[0])
      case Some(v) => PickFieldSnoc(d[f := Some(v)], f, keys[1..], k, m);
      case None => PickFieldSnoc(d, f, keys[1..], k, m);
    }
  }

  /** Trying a field's keys changes only that field, to the last value that converts. */
  lemma {:induction false} PickFieldSelects(d: Data, f: Field, keys: seq<string>, m: map<string, Raw>)
    ensures PickField(d, f, keys, m) ==
      (match LastConverting(f, keys, m) case Some(v) => d[f := Some(v)] case None => d)
    decreases |keys|
  {
    if keys != [] {
      var init, k := keys[..|keys| - 1], keys[|keys| - 1];
      assert keys == init + [k];
      PickFieldSnoc(d, f, init, k, m);
      PickFieldSelects(d, f, init, m);
    }
  }

  lemma {:induction false} PickAllSelects(d: Data, fs: seq<Field>, m: map<string, Raw>)
    ensures forall f :: f in fs && LastConverting(f, SourceKeys(f), m).Some? ==>
      f in PickAll(d, fs, m) && PickAll(d, fs, m)[f] == Some(LastConverting(f, SourceKeys(f), m).value)
    ensures forall f :: (f !in fs || LastConverting(f, SourceKeys(f), m).None?) ==>
      (f in PickAll(d, fs, m) <==> f in d) && (f in d ==> PickAll(d, fs, m)[f] == d[f])
    decreases fs
  {
    if fs != [] {
      PickFieldSelects(d, fs[0], SourceKeys(fs[0]), m);
      PickAllSelects(PickField(d, fs[0], SourceKeys(fs[0]), m), fs[1..], m);
    }
  }

  /**
   * read stores exactly the fields for which some source key converts, each
   * with the value of the LAST such key, typed by its declared type.
   */
  lemma ReadSelects(m: map<string, Raw>)
    ensures WellTyped(ReadData(Some(m)))
    ensures forall f :: f in ReadData(Some(m)) <==> LastConverting(f, SourceKeys(f), m).Some?
    ensures forall f | f in ReadData(Some(m)) :: ReadData(Some(m))[f] == Some(LastConverting(f, SourceKeys(f), m).value)
  {
    SchemaIsClosed();
    PickAllSelects(map[], Fields, m);
    forall f | f in ReadData(Some(m)) ensures HasType(ReadData(Some(m))[f].value, TypeOf(f)) {
      LastConvertingTyped(f, SourceKeys(f), m);
    }
  }

  lemma {:induction false} LastConvertingTyped(f: Field, keys: seq<string>, m: map<string, Raw>)
    ensures LastConverting(f, keys, m).Some? ==> HasType(LastConverting(f, keys, m).value, TypeOf(f))
    decreases |keys|
  {
    if keys != [] {
      LastConvertingTyped(f, keys[..|keys| - 1], m);
    }
  }

  /** When both ISO keys convert, the maker-specific one, tried second, wins. */
  lemma IsoPrefersSecondKey(m: map<string, Raw>)
    requires Converted(Iso, m, "Exif.Nikon3.ISOSpeed").Some?
    ensures Iso in ReadData(Some(m))
    ensures ReadData(Some(m))[Iso] == Converted(Iso, m, "Exif.Nikon3.ISOSpeed")
  {
    var keys := SourceKeys(Iso);
    assert keys[|keys| - 1] == "Exif.Nikon3.ISOSpeed";
    assert LastConverting(Iso, keys, m) == Converted(Iso, m, "Exif.Nikon3.ISOSpeed");
    ReadSelects(m);
  }

  // ---------------------------------------------------------------------
  // The record
  // ---------------------------------------------------------------------

  /** The loop of __str__ over the fields of a record that holds something. */
  method WritePairs(data: Data, keys: seq<Field>) returns (dbrow: string)
    ensures dbrow == PairsText(Pairs(data, keys))
  {
    dbrow := "";
    var i := 0;
    while i < |keys|
      invariant 0 <= i <= |keys|
      invariant dbrow + PairsText(Pairs(data, keys[i..])) == PairsText(Pairs(data, keys))
    {
      var k := keys[i];
      PairsTextStep(data, keys[i..]);
      assert keys[i..][0] == k && keys[i..][1..] == keys[i + 1..];
      if k in data {
        dbrow := dbrow + Name(k) + "=" + Render(data[k]) + "\t";
      }
      i := i + 1;
    }
    assert keys[i..] == [];
  }

  /** The loop of __str__ for a record that holds nothing. */
  method WriteUnread(keys: seq<Field>) returns (dbrow: string)
    ensures dbrow == PairsText(UnreadPairs(keys))
  {
    dbrow := "";
    var i := 0;
    while i < |keys|
      invariant 0 <= i <= |keys|
      invariant dbrow + PairsText(UnreadPairs(keys[i..])) == PairsText(UnreadPairs(keys))
    {
      var k := keys[i];
      UnreadTextStep(keys[i..]);
      assert keys[i..][0] == k && keys[i..][1..] == keys[i + 1..];
      dbrow := dbrow + Name(k) + "=None\t";
      i := i + 1;
    }
    assert keys[i..] == [];
  }

  class ImageMetadata {
    const fname: string
    var data: Data

    /** A record for a file, holding nothing yet. */
    constructor (fname: string)
      ensures this.fname == fname && data == map[]
    {
      this.fname := fname;
      data := map[];
    }

    method Clear()
      modifies this
      ensures data == map[]
    {
      data := map[];
    }

    /**
     * fromVals: clear, then store every schema field given a non-None value,
     * converted by its declared type; a value that does not convert raises
     * (returned as Fail) with the items before it stored.
     */
    method FromVals(vals: seq<(string, Option<Raw>)>) returns (r: Outcome<Error>)
      modifies this
      ensures (data, r) == StoreVals(map[], vals)
    {
      Clear();
      var i := 0;
      while i < |vals|
        invariant 0 <= i <= |vals|
        invariant StoreVals(data, vals[i..]) == StoreVals(map[], vals)
      {
        var (key, val) := vals[i];
        assert vals[i..][1..] == vals[i + 1..];
        var f := FieldNamed(key);
        if f.Some? && val.Some? {
          var c := Construct(TypeOf(f.value), val.value);
          if c.Err? {
            return Fail(c.error);
          }
          data := data[f.value := Some(c.value)];
        }
        i := i + 1;
      }
      r := Pass;
    }

    /**
     * fromString: parse the pairs of an SDB text and store each, converted
     * by its declared type or None where that raises ValueError; an unknown
     * key raises KeyError (returned as Fail). The record is not cleared first.
     */
    method FromString(entry: string) returns (r: Outcome<Error>)
      modifies this
      ensures (data, r) == StoreStrings(old(data), FindAll(entry))
    {
      var vals := FindAll(entry);
      var i := 0;
      while i < |vals|
        invariant 0 <= i <= |vals|
        invariant StoreStrings(data, vals[i..]) == StoreStrings(old(data), vals)
      {
        var (key, val) := vals[i];
        assert vals[i..][1..] == vals[i + 1..];
        var f := FieldNamed(key);
        if f.None? {
          return Fail(KeyError);
        }
        data := data[f.value := ParseEntry(f.value, val)];
        i := i + 1;
      }
      r := Pass;
    }

    /**
     * The key selection of read: clear, then for each field try its source
     * keys in order, storing every value that converts.
     */
    method Read(source: Option<map<string, Raw>>)
      modifies this
      ensures data == ReadData(source)
    {
      Clear();
      if source.None? {
        return;
      }
      var m := source.value;
      var fields := Fields;
      while fields != []
        invariant PickAll(data, fields, m) == PickAll(map[], Fields, m)
        decreases |fields|
      {
        var key := fields[0];
        var keys := SourceKeys(key);
        while keys != []
          invariant PickAll(PickField(data, key, keys, m), fields[1..], m) == PickAll(map[], Fields, m)
          decreases |keys|
        {
          var exifkey := keys[0];
          if exifkey in m {
            var c := Construct(TypeOf(key), m[exifkey]);
            if c.Ok? {
              data := data[key := Some(c.value)];
            }
          }
          keys := keys[1..];
        }
        fields := fields[1..];
      }
    }

    /**
     * __str__: the SDB text of the record: its pairs, or `key=None` for
     * every field when it holds nothing, with trailing whitespace stripped.
     */
    method ToString() returns (s: string)
      ensures s == Serialize(data)
    {
      var dbrow;
      if data != map[] {
        dbrow := WritePairs(data, Fields);
      } else {
        dbrow := WriteUnread(Fields);
      }
      s := RStrip(dbrow);
    }
  }
}
