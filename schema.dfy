/**
 * The closed field schema of a metadata record (KEYS and TYPES in
 * ImageMetadata.py) and the lookups a record answers: __getitem__ and the
 * typed getters.
 */
module Schema {
  import opened Wrappers
  import opened Conversions

  /** The supported metadata fields. */
  datatype Field = Origtime | Comment | Aperture | Flength | Flength35 | Exposure | Iso | Rating

  /**
   * Every field once, in the order a loop over the KEYS dict visits them
   * (the order 64-bit CPython 2.7 gives these eight keys, whatever a
   * record holds); __str__ and read loop over KEYS, so they follow this
   * order.
   */
  const Fields: seq<Field> := [Comment, Rating, Flength35, Flength, Origtime, Iso, Aperture, Exposure]

  /** The key under which a field is stored and written. */
  function Name(f: Field): string
  {
    match f
    case Origtime => "origtime"
    case Comment => "comment"
    case Aperture => "aperture"
    case Flength => "flength"
    case Flength35 => "flength35"
    case Exposure => "exposure"
    case Iso => "iso"
    case Rating => "rating"
  }

  /** The field a key names, if any: a KEYS.has_key / TYPES[key] lookup. */
  function FieldNamed(k: string): (r: Option<Field>)
    ensures r.Some? ==> Name(r.value) == k
    ensures r.None? ==> forall f :: Name(f) != k
  {
    if k == "origtime" then Some(Origtime)
    else if k == "comment" then Some(Comment)
    else if k == "aperture" then Some(Aperture)
    else if k == "flength" then Some(Flength)
    else if k == "flength35" then Some(Flength35)
    else if k == "exposure" then Some(Exposure)
    else if k == "iso" then Some(Iso)
    else if k == "rating" then Some(Rating)
    else None
  }

  /** TYPES: the declared type of each field. */
  function TypeOf(f: Field): PyType
  {
    match f
    case Origtime => StrType
    case Comment => StrType
    case Rating => IntType
    case _ => FloatType
  }

  /** KEYS: the metadata keys a field is read from, in the order they are tried. */
  function SourceKeys(f: Field): (keys: seq<string>)
    ensures |keys| >= 1
  {
    match f
    case Origtime => ["Exif.Photo.DateTimeOriginal"]
    case Comment => ["Exif.Image.ImageDescription"]
    case Aperture => ["Exif.Photo.FNumber"]
    case Flength => ["Exif.Photo.FocalLength"]
    case Flength35 => ["Exif.Photo.FocalLengthIn35mmFilm"]
    case Exposure => ["Exif.Photo.ExposureTime"]
    case Iso => ["Exif.Photo.ISOSpeedRatings", "Exif.Nikon3.ISOSpeed"]
    case Rating => ["Xmp.xmp.Rating"]
  }

  /** A field's name looks up that field. */
  lemma NameRoundTrip(f: Field)
    ensures FieldNamed(Name(f)) == Some(f)
  {
  }

  /** Names and fields correspond one to one, and Fields lists every field exactly once. */
  lemma SchemaIsClosed()
    ensures forall f :: FieldNamed(Name(f)) == Some(f)
    ensures forall k, f :: FieldNamed(k) == Some(f) <==> k == Name(f)
    ensures forall f :: f in Fields
    ensures forall i, j :: 0 <= i < j < |Fields| ==> Fields[i] != Fields[j]
  {
    forall f ensures FieldNamed(Name(f)) == Some(f) && f in Fields {
      NameRoundTrip(f);
      FieldListed(f);
    }
  }

  /** Every field is in Fields. */
  lemma FieldListed(f: Field)
    ensures f in Fields
  {
    match f
    case Comment => assert Fields[0] == f;
    case Rating => assert Fields[1] == f;
    case Flength35 => assert Fields[2] == f;
    case Flength => assert Fields[3] == f;
    case Origtime => assert Fields[4] == f;
    case Iso => assert Fields[5] == f;
    case Aperture => assert Fields[6] == f;
    case Exposure => assert Fields[7] == f;
  }

  /**
   * The contents of a record: the fields it has an entry for, each holding a
   * value or None (a field whose text could not be converted).
   */
  type Data = map<Field, Option<Value>>

  /** Every stored value has its field's declared type. */
  predicate WellTyped(d: Data)
  {
    forall f | f in d && d[f].Some? :: HasType(d[f].value, TypeOf(f))
  }

  /** __getitem__: the stored entry for a key, or None when there is none. */
  function GetItem(d: Data, k: string): (r: Option<Value>)
    ensures FieldNamed(k).None? ==> r.None?
    ensures forall f :: Name(f) == k ==> r == (if f in d then d[f] else None)
  {
    match FieldNamed(k)
    case None => None
    case Some(f) => if f in d then d[f] else None
  }

  /** float() of a stored entry of a float field, None when there is none. */
  function FloatOf(d: Data, f: Field): (r: Option<real>)
    requires WellTyped(d) && TypeOf(f) == FloatType
    ensures r.None? <==> GetItem(d, Name(f)).None?
    ensures r.Some? ==> GetItem(d, Name(f)) == Some(Float(r.value))
  {
    SchemaIsClosed();
    match GetItem(d, Name(f))
    case None => None
    case Some(v) => Some(v.r)
  }

  /** getExposure: the stored exposure entry as it is, None when there is none. */
  function GetExposure(d: Data): (r: Option<Value>)
    ensures r == if Exposure in d then d[Exposure] else None
  {
    GetItem(d, "exposure")
  }

  /** getAperture: float() of the stored entry, None when there is none. */
  function GetAperture(d: Data): (r: Option<real>)
    requires WellTyped(d)
    ensures r.None? <==> Aperture !in d || d[Aperture].None?
    ensures r.Some? ==> d[Aperture] == Some(Float(r.value))
  {
    FloatOf(d, Aperture)
  }

  /** getIso: float() of the stored entry, None when there is none. */
  function GetIso(d: Data): (r: Option<real>)
    requires WellTyped(d)
    ensures r.None? <==> Iso !in d || d[Iso].None?
    ensures r.Some? ==> d[Iso] == Some(Float(r.value))
  {
    FloatOf(d, Iso)
  }

  /** getFocalLength: float() of the stored entry, None when there is none. */
  function GetFocalLength(d: Data): (r: Option<real>)
    requires WellTyped(d)
    ensures r.None? <==> Flength !in d || d[Flength].None?
    ensures r.Some? ==> d[Flength] == Some(Float(r.value))
  {
    FloatOf(d, Flength)
  }

  /** getFocalLength35: float() of the stored entry, None when there is none. */
  function GetFocalLength35(d: Data): (r: Option<real>)
    requires WellTyped(d)
    ensures r.None? <==> Flength35 !in d || d[Flength35].None?
    ensures r.Some? ==> d[Flength35] == Some(Float(r.value))
  {
    FloatOf(d, Flength35)
  }

  /** int() of the stored rating, None when there is none. */
  function GetRating(d: Data): (r: Option<int>)
    requires WellTyped(d)
    ensures r.None? <==> GetItem(d, "rating").None?
    ensures r.Some? ==> GetItem(d, "rating") == Some(Int(r.value))
  {
    match GetItem(d, "rating")
    case None => None
    case Some(v) => Some(v.i)
  }

  /** getComment: the stored comment entry, None when there is none. */
  function GetComment(d: Data): (r: Option<Value>)
    ensures r == if Comment in d then d[Comment] else None
  {
    match GetItem(d, "comment")
    case Some(v) => Some(v)
    case None => None
  }

  /** str() of the stored capture time: the text "None" when there is none. */
  function GetOrigtime(d: Data): (r: string)
    requires WellTyped(d)
    ensures GetItem(d, "origtime").None? ==> r == "None"
    ensures GetItem(d, "origtime").Some? ==> GetItem(d, "origtime") == Some(Str(r))
  {
    match GetItem(d, "origtime")
    case None => "None"
    case Some(v) => StrOf(AsRaw(v))
  }
}
