/**
 * The typed filter engine (exiffilter.py): a Filter compares one metadata
 * field against a reference value parsed from a compact text such as `+=2`,
 * `-1/250` or `` (exists); an ExifFilter holds one Filter per field and
 * passes a record when all of them do.
 */
module ExifFilter {
  import opened Wrappers
  import opened Conversions
  import opened Schema
  import ImageMetadata

  /** The comparison kinds of class Filter. */
  datatype Comparator = EQ | NE | LT | LE | GT | GE

  // ---------------------------------------------------------------------
  // parse_value and parse_filter
  // ---------------------------------------------------------------------

  /**
   * parse_value: the filter's type applied to a value, except that text for
   * a float field is read as a fraction (so `1/250` is accepted).
   */
  function ParseValue(ty: PyType, x: Raw): (r: Result<Value, Error>)
    ensures r.Ok? ==> HasType(r.value, ty)
    ensures ty == FloatType && x.RawStr? ==>
      (r.Ok? <==> ParseFraction(x.s).Ok?) && (r.Ok? ==> r.value == Float(ParseFraction(x.s).value))
    ensures !(ty == FloatType && x.RawStr?) ==> r == Construct(ty, x)
  {
    if ty == FloatType && x.RawStr? then
      match ParseFraction(x.s)
      case Ok(v) => Ok(Float(v))
      case Err(e) => Err(e)
    else Construct(ty, x)
  }

  /** The comparison a non-empty filter text's prefix selects, and the length of that prefix. */
  function Prefix(s: string): (r: (Comparator, nat))
    requires s != []
    ensures r.0 != NE && r.1 <= 2 && r.1 <= |s|
  {
    if s[0] == '+' then (if |s| > 1 && s[1] == '=' then (GE, 2) else (GT, 1))
    else if s[0] == '-' then (if |s| > 1 && s[1] == '=' then (LE, 2) else (LT, 1))
    else (EQ, 0)
  }

  /**
   * What parse_filter leaves in a filter of type ty: the comparison, and
   * either the reference value (None for the exists filter of an empty text)
   * or the error parse_value raises for the rest of the text.
   */
  function ParseSpec(s: string, ty: PyType): (r: (Comparator, Result<Option<Value>, Error>))
    ensures r.0 != NE
    ensures r.1 == Ok(None) <==> s == []
    ensures r.1.Ok? && r.1.value.Some? ==> HasType(r.1.value.value, ty)
  {
    if s == [] then (GT, Ok(None))
    else
      var (c, nc) := Prefix(s);
      (c, match ParseValue(ty, RawStr(s[nc..])) case Ok(v) => Ok(Some(v)) case Err(e) => Err(e))
  }

  /** The text a filter is written as: its comparison's symbol before the reference value's text. */
  function Symbol(c: Comparator): string
  {
    match c
    case GT => "+"
    case GE => "+="
    case LT => "-"
    case LE => "-="
    case _ => ""
  }

  /** A reference text that, written after c's symbol, is not read as part of a longer prefix. */
  predicate Unambiguous(c: Comparator, t: string)
  {
    match c
    case EQ => t != [] && t[0] != '+' && t[0] != '-'
    case GT => t == [] || t[0] != '='
    case LT => t == [] || t[0] != '='
    case GE => true
    case LE => true
    case NE => false
  }

  /**
   * Prefix decoding: parse_filter reads back the comparison of a written
   * filter and parses exactly the text after its symbol.
   */
  lemma ParseWrittenFilter(c: Comparator, t: string, ty: PyType)
    requires Unambiguous(c, t)
    ensures ParseSpec(Symbol(c) + t, ty) ==
      (c, match ParseValue(ty, RawStr(t)) case Ok(v) => Ok(Some(v)) case Err(e) => Err(e))
  {
    var s := Symbol(c) + t;
    assert s[|Symbol(c)|..] == t;
    match c
    case EQ =>
    case GT => assert s[0] == '+';
    case GE => assert s[0] == '+' && s[1] == '=';
    case LT => assert s[0] == '-';
    case LE => assert s[0] == '-' && s[1] == '=';
  }

  /** A text with no sign prefix is an equality filter on the whole text. */
  lemma UnsignedIsEquality(s: string, ty: PyType)
    requires s != [] && s[0] != '+' && s[0] != '-'
    ensures ParseSpec(s, ty).0 == EQ
    ensures ParseSpec(s, ty).1 == (match ParseValue(ty, RawStr(s)) case Ok(v) => Ok(Some(v)) case Err(e) => Err(e))
  {
    assert s[0..] == s;
  }

  // ---------------------------------------------------------------------
  // apply
  // ---------------------------------------------------------------------

  /** The selected comparison of a current value against the reference value, as Python orders them. */
  predicate Compare(c: Comparator, cur: Value, ref: Value)
    requires c != NE
  {
    match c
    case GT => Less(ref, cur)
    case LT => Less(cur, ref)
    case EQ => cur == ref
    case GE => Less(ref, cur) || cur == ref
    case LE => Less(cur, ref) || cur == ref
  }

  /**
   * Filter.apply with the filter's comparison, reference value and type: an
   * exists filter passes any present value; otherwise an absent value fails
   * and a present one is converted and compared.
   */
  function Evaluate(c: Comparator, refval: Option<Value>, ty: PyType, data: Option<Value>): (r: Result<bool, Error>)
    requires c != NE
    ensures refval.None? ==> r == Ok(data.Some?)
    ensures refval.Some? && data.None? ==> r == Ok(false)
    ensures r.Err? ==> data.Some? && ParseValue(ty, AsRaw(data.value)).Err?
  {
    if refval.None? then Ok(data.Some?)
    else if data.None? then Ok(false)
    else
      match ParseValue(ty, AsRaw(data.value))
      case Err(e) => Err(e)
      case Ok(cur) => Ok(Compare(c, cur, refval.value))
  }

  /** A present value of the filter's own type is compared as it is and never raises. */
  lemma EvaluateTyped(c: Comparator, ref: Value, ty: PyType, v: Value)
    requires c != NE && HasType(v, ty)
    ensures Evaluate(c, Some(ref), ty, Some(v)) == Ok(Compare(c, v, ref))
  {
    ConstructTyped(v, ty);
  }

  /** GT and LE, and LT and GE, are complements on values of the filter's type. */
  lemma Complements(ref: Value, ty: PyType, v: Value)
    requires HasType(v, ty) && HasType(ref, ty)
    ensures Evaluate(GT, Some(ref), ty, Some(v)).value == !Evaluate(LE, Some(ref), ty, Some(v)).value
    ensures Evaluate(LT, Some(ref), ty, Some(v)).value == !Evaluate(GE, Some(ref), ty, Some(v)).value
    ensures Evaluate(EQ, Some(ref), ty, Some(v)).value ==
      (Evaluate(GE, Some(ref), ty, Some(v)).value && Evaluate(LE, Some(ref), ty, Some(v)).value)
  {
    EvaluateTyped(GT, ref, ty, v);
    EvaluateTyped(LE, ref, ty, v);
    EvaluateTyped(LT, ref, ty, v);
    EvaluateTyped(GE, ref, ty, v);
    EvaluateTyped(EQ, ref, ty, v);
    LessTrichotomy(v, ref, ty);
  }

  /** The exists filter: an empty text passes every present value, 0 and "" included, and fails only None. */
  lemma EmptyTextIsExists(ty: PyType, data: Option<Value>)
    ensures ParseSpec("", ty) == (GT, Ok(None))
    ensures Evaluate(GT, None, ty, data) == Ok(data.Some?)
  {
  }

  /** Rating filter `+2`: greater than 2, so 3 passes while 2 and a missing rating fail. */
  lemma RatingAboveTwo()
    ensures ParseSpec("+2", IntType) == (GT, Ok(Some(Int(2))))
    ensures Evaluate(GT, Some(Int(2)), IntType, Some(Int(3))) == Ok(true)
    ensures Evaluate(GT, Some(Int(2)), IntType, Some(Int(2))) == Ok(false)
    ensures Evaluate(GT, Some(Int(2)), IntType, None) == Ok(false)
  {
    ParseWrittenFilter(GT, "2", IntType);
    assert ParseInt("2") == Some(2) by {
      assert SplitSign("2") == (false, "2");
      assert DigitsValue("2") == 2 by {
        assert "2"[..0] == [];
      }
    }
  }

  /** Exposure filter `-1/250`: shorter than 1/250 s. */
  lemma ExposureBelowFraction()
    ensures ParseSpec("-1/250", FloatType) == (LT, Ok(Some(Float(1.0 / 250.0))))
  {
    ParseWrittenFilter(LT, "1/250", FloatType);
    OneOver250();
  }

  /** Exposure filter `1/250`: exactly 1/250 s. */
  lemma ExposureEqualsFraction()
    ensures ParseSpec("1/250", FloatType) == (EQ, Ok(Some(Float(1.0 / 250.0))))
  {
    UnsignedIsEquality("1/250", FloatType);
    OneOver250();
  }

  lemma OneOver250()
    ensures ParseFraction("1/250") == Ok(1.0 / 250.0)
  {
    var s := "1/250";
    assert SplitSign(s) == (false, s);
    assert IndexOf(s, '/') == Some(1);
    assert s[..1] == "1" && s[2..] == "250";
    assert DigitsValue("1") == 1 by {
      assert "1"[..0] == [];
    }
    assert DigitsValue("250") == 250 by {
      assert "250"[..2] == "25" && "25"[..1] == "2" && "2"[..0] == [];
    }
  }

  /** A zero denominator makes filter construction raise ZeroDivisionError. */
  lemma ZeroDenominatorRaises()
    ensures ParseSpec("1/0", FloatType) == (EQ, Err(ZeroDivisionError))
  {
    var s := "1/0";
    UnsignedIsEquality(s, FloatType);
    assert SplitSign(s) == (false, s);
    assert IndexOf(s, '/') == Some(1);
    assert s[..1] == "1" && s[2..] == "0";
    assert DigitsValue("0") == 0 by {
      assert "0"[..0] == [];
    }
  }

  /** Text that is not a number makes filter construction on a numeric field raise ValueError. */
  lemma NonNumericRaises()
    ensures ParseSpec("+x", IntType) == (GT, Err(ValueError))
    ensures ParseSpec("x", FloatType) == (EQ, Err(ValueError))
  {
    ParseWrittenFilter(GT, "x", IntType);
    assert !IsDigit("x"[0]);
    assert SplitSign("x") == (false, "x");
    UnsignedIsEquality("x", FloatType);
    assert IndexOf("x", '/') == None;
  }

  // ---------------------------------------------------------------------
  // The filters
  // ---------------------------------------------------------------------

  class Filter {
    /** The type the field is converted to (TYPES of the field). */
    const valueType: PyType
    var filtertype: Comparator
    var refval: Option<Value>
    /** The field the filter is for, set by ExifFilter.add_filter. */
    var userdata: Option<string>

    /** parse_filter never selects NE, and the reference value has the filter's type. */
    predicate Valid()
      reads this
    {
      filtertype != NE && (refval.Some? ==> HasType(refval.value, valueType))
    }

    /** The defaults __init__ sets before parsing: GT, no reference value, no field. */
    constructor (valueType: PyType)
      ensures this.valueType == valueType
      ensures filtertype == GT && refval == None && userdata == None
      ensures Valid()
    {
      this.valueType := valueType;
      filtertype := GT;
      refval := None;
      userdata := None;
    }

    /**
     * parse_filter: set the comparison from the text's prefix, then the
     * reference value from the rest; when parse_value raises, the comparison
     * is already set and the reference value is left as it was.
     */
    method ParseFilter(s: string) returns (r: Outcome<Error>)
      modifies this
      ensures filtertype == ParseSpec(s, valueType).0
      ensures ParseSpec(s, valueType).1.Ok? ==> r == Pass && refval == ParseSpec(s, valueType).1.value
      ensures ParseSpec(s, valueType).1.Err? ==> r == Fail(ParseSpec(s, valueType).1.error) && refval == old(refval)
      ensures userdata == old(userdata)
    {
      var nc := 0;
      if |s| == 0 {
        filtertype := GT;
        refval := None;
        return Pass;
      } else if s[0] == '+' {
        if |s| > 1 && s[1] == '=' {
          filtertype := GE;
          nc := 2;
        } else {
          filtertype := GT;
          nc := 1;
        }
      } else if s[0] == '-' {
        if |s| > 1 && s[1] == '=' {
          filtertype := LE;
          nc := 2;
        } else {
          filtertype := LT;
          nc := 1;
        }
      } else {
        filtertype := EQ;
      }
      var v := ParseValue(valueType, RawStr(s[nc..]));
      if v.Err? {
        return Fail(v.error);
      }
      refval := Some(v.value);
      r := Pass;
    }

    /** apply: does the filter pass the given field value? */
    function Apply(data: Option<Value>): (r: Result<bool, Error>)
      reads this
      requires Valid()
      ensures refval.None? ==> r == Ok(data.Some?)
      ensures refval.Some? && data.None? ==> r == Ok(false)
      ensures refval.Some? && data.Some? && HasType(data.value, valueType) ==>
        r == Ok(Compare(filtertype, data.value, refval.value))
    {
      Evaluate(filtertype, refval, valueType, data)
    }
  }

  /**
   * Filter(filter_string, datatype): a filter with the defaults, then parsed;
   * construction fails with the error parse_filter raises.
   */
  method NewFilter(s: string, valueType: PyType) returns (r: Result<Filter, Error>)
    ensures r.Ok? <==> ParseSpec(s, valueType).1.Ok?
    ensures r.Err? ==> r.error == ParseSpec(s, valueType).1.error
    ensures r.Ok? ==> fresh(r.value) && r.value.Valid() && r.value.valueType == valueType
    ensures r.Ok? ==> r.value.filtertype == ParseSpec(s, valueType).0 && r.value.refval == ParseSpec(s, valueType).1.value
    ensures r.Ok? ==> r.value.userdata == None
  {
    var f := new Filter(valueType);
    var outcome := f.ParseFilter(s);
    if outcome.Fail? {
      return Err(outcome.error);
    }
    return Ok(f);
  }

  /** metadata[f.userdata]: the record's entry for the filter's field, None when there is none. */
  function Lookup(d: Data, field: Option<string>): Option<Value>
  {
    match field
    case None => None
    case Some(k) => GetItem(d, k)
  }

  /** What one filter says about a record. */
  function Verdict(f: Filter, d: Data): Result<bool, Error>
    reads f
    requires f.Valid()
  {
    f.Apply(Lookup(d, f.userdata))
  }

  /** `ret &= …` after a verdict on the earlier filters, given the verdict on the rest. */
  function AndThen(b: bool, rest: Result<bool, Error>): Result<bool, Error>
  {
    match rest
    case Err(e) => Err(e)
    case Ok(c) => Ok(b && c)
  }

  /**
   * The loop of ExifFilter.apply: every filter is applied in turn and the
   * results are and-ed; the first error raised ends the loop.
   */
  function Conj(fs: seq<Filter>, d: Data): Result<bool, Error>
    reads set i | 0 <= i < |fs| :: fs[i]
    requires forall i :: 0 <= i < |fs| ==> fs[i].Valid()
  {
    if fs == [] then Ok(true)
    else
      match Verdict(fs[0], d)
      case Err(e) => Err(e)
      case Ok(b) => AndThen(b, Conj(fs[1..], d))
  }

  /**
   * The conjunction fails exactly when some filter raises; otherwise it is
   * true exactly when every filter passes (so true for no filters).
   */
  lemma {:induction false} ConjIsForall(fs: seq<Filter>, d: Data)
    requires forall i :: 0 <= i < |fs| ==> fs[i].Valid()
    ensures Conj(fs, d).Err? <==> exists i :: 0 <= i < |fs| && Verdict(fs[i], d).Err?
    ensures Conj(fs, d).Ok? ==> (Conj(fs, d).value <==> forall i :: 0 <= i < |fs| ==> Verdict(fs[i], d).value)
  {
    if fs != [] {
      ConjIsForall(fs[1..], d);
      assert forall i :: 0 < i < |fs| ==> fs[i] == fs[1..][i - 1];
      if Verdict(fs[0], d).Ok? && Conj(fs[1..], d).Ok? {
        forall i | 0 <= i < |fs[1..]| ensures Verdict(fs[i + 1], d) == Verdict(fs[1..][i], d) {
        }
      } else if Verdict(fs[0], d).Ok? {
        var j :| 0 <= j < |fs[1..]| && Verdict(fs[1..][j], d).Err?;
        assert Verdict(fs[j + 1], d).Err?;
      }
    }
  }

  /** The result does not depend on the order of the filters, as long as none raises. */
  lemma ConjOrderIndependent(fs: seq<Filter>, gs: seq<Filter>, d: Data)
    requires forall i :: 0 <= i < |fs| ==> fs[i].Valid()
    requires multiset(fs) == multiset(gs)
    ensures forall i :: 0 <= i < |gs| ==> gs[i].Valid()
    ensures Conj(fs, d).Ok? <==> Conj(gs, d).Ok?
    ensures Conj(fs, d).Ok? ==> Conj(fs, d) == Conj(gs, d)
  {
    forall i | 0 <= i < |gs| ensures gs[i] in fs {
      assert gs[i] in multiset(gs);
    }
    forall i | 0 <= i < |fs| ensures fs[i] in gs {
      assert fs[i] in multiset(fs);
    }
    ConjIsForall(fs, d);
    ConjIsForall(gs, d);
  }

  /** A filter built by add_filter: tagged with a schema field and typed by that field. */
  predicate Tagged(f: Filter)
    reads f
  {
    f.Valid() && f.userdata.Some? && FieldNamed(f.userdata.value).Some? &&
    f.valueType == TypeOf(FieldNamed(f.userdata.value).value)
  }

  /** A filter of a record's own field type never raises on that record. */
  lemma TaggedNeverRaises(f: Filter, d: Data)
    requires Tagged(f) && WellTyped(d)
    ensures Verdict(f, d).Ok?
  {
    var field := FieldNamed(f.userdata.value).value;
    var v := Lookup(d, f.userdata);
    if f.refval.Some? && v.Some? {
      assert v == d[field];
      EvaluateTyped(f.filtertype, f.refval.value, f.valueType, v.value);
    }
  }

  class ExifFilter {
    var filters: seq<Filter>

    predicate Valid()
      reads this, filters
    {
      forall i :: 0 <= i < |filters| ==> Tagged(filters[i])
    }

    constructor ()
      ensures filters == [] && Valid()
    {
      filters := [];
    }

    /** numFilters: how many filters add_filter has appended; with none, apply passes every record. */
    function NumFilters(): (n: nat)
      reads this, filters
      ensures n == |filters|
      ensures Valid() && n == 0 ==> forall d :: Conj(filters, d) == Ok(true)
    {
      |filters|
    }

    /**
     * add_filter: nothing for a None text; KeyError for a field outside the
     * schema; otherwise one filter of the field's type, tagged with the
     * field, appended to the list, unless parsing its text raises.
     */
    method AddFilter(field: string, filterString: Option<string>) returns (r: Outcome<Error>)
      requires Valid()
      modifies this
      ensures Valid()
      ensures filterString.None? ==> r == Pass && filters == old(filters)
      ensures filterString.Some? && FieldNamed(field).None? ==> r == Fail(KeyError) && filters == old(filters)
      ensures filterString.Some? && FieldNamed(field).Some? ==>
        var spec := ParseSpec(filterString.value, TypeOf(FieldNamed(field).value));
        (spec.1.Err? ==> r == Fail(spec.1.error) && filters == old(filters)) &&
        (spec.1.Ok? ==>
          (r == Pass && NumFilters() == old(NumFilters()) + 1 &&
           filters[..|old(filters)|] == old(filters) &&
           fresh(filters[|old(filters)|]) &&
           filters[|old(filters)|].userdata == Some(field) &&
           filters[|old(filters)|].filtertype == spec.0 &&
           filters[|old(filters)|].refval == spec.1.value))
    {
      if filterString.None? {
        return Pass;
      }
      var fieldOf := FieldNamed(field);
      if fieldOf.None? {
        return Fail(KeyError);
      }
      var made := NewFilter(filterString.value, TypeOf(fieldOf.value));
      if made.Err? {
        return Fail(made.error);
      }
      var f := made.value;
      f.userdata := Some(field);
      filters := filters + [f];
      r := Pass;
    }

    /** apply: the conjunction of all filters on the record's entries. */
    method Apply(metadata: ImageMetadata.ImageMetadata) returns (r: Result<bool, Error>)
      requires Valid()
      ensures r == Conj(filters, metadata.data)
      ensures WellTyped(metadata.data) ==> r.Ok?
    {
      var d := metadata.data;
      var ret := true;
      var i := 0;
      while i < |filters|
        invariant 0 <= i <= |filters|
        invariant Conj(filters, d) == AndThen(ret, Conj(filters[i..], d))
      {
        var f := filters[i];
        assert filters[i..][0] == f && filters[i..][1..] == filters[i + 1..];
        var val := Lookup(d, f.userdata);
        var res := f.Apply(val);
        if res.Err? {
          return Err(res.error);
        }
        ret := ret && res.value;
        i := i + 1;
      }
      r := Ok(ret);
      if WellTyped(d) {
        forall j | 0 <= j < |filters| ensures Verdict(filters[j], d).Ok? {
          TaggedNeverRaises(filters[j], d);
        }
        ConjIsForall(filters, d);
      }
    }
  }
}
