# photofind core, modelled in Dafny

photofind indexes image files into a SQLite table and uses it to find the
images whose metadata (capture time, focal lengths, aperture, exposure, ISO,
rating, comment) passes a set of filters. This project models the core of
that program and proves properties of the model:

- `wrappers.dfy`: the `Option`, `Result` and `Outcome` types. Python
  exceptions become the `Error` values `ValueError`, `TypeError`,
  `KeyError`, `ZeroDivisionError` and `OSError`.
- `conversions.dfy` (module `Conversions`): the Python builtins the core
  applies to metadata values: `int()`, `float()` and `str()`;
  `fractions.Fraction` of a text; `str.lower`, `str.lstrip` and
  `str.rstrip`; and ordering.
- `schema.dfy` (module `Schema`):
  - the `KEYS`/`TYPES` tables of `ImageMetadata.py`;
  - a record's contents as a map from field to entry;
  - `__getitem__` and the typed getters.
- `sdb_format.dfy` (module `SdbFormat`): the tab-separated `key=value` row
  text.
  - `re.findall('([^\t]*?)=(.*?)(?:\t|$)')` is modelled as the regular
    expression matches it.
  - The text `__str__` writes is modelled, including its final `rstrip()`.
  - Keys are written in the order in which CPython 2.7 iterates the eight-key `KEYS` dict
    (`Schema.Fields`). The loop runs over `KEYS` and probes the record, so this order is the same for every record.
- `image_metadata.dfy` (module `ImageMetadata`): class `ImageMetadata` with
  `__str__`, `fromString`, `clear`, `fromVals` and the key-selection loop
  of `read`.
- `exif_filter.dfy` (module `ExifFilter`): classes `Filter` and `ExifFilter`.
  - A filter text such as `+=2`, `-1/250` or the empty text is parsed into
    a comparison and a typed reference value.
  - A field value is evaluated against it.
  - The filters of a record are and-ed.
- `photo_db.dfy` (module `PhotoDb`): the parts of class `PhotoDB` without
  SQL. These are:
  - `IMAGE_EXTENSIONS` and `isImage`, with `os.path.splitext`;
  - `pathsToFiles` and `pathsToImageFiles` over a directory tree, skipping
    hidden names;
  - the images table as a map from file path to row;
  - `getMetadata`, `setMetadata`, `_updateFile` and `dbRowToString`;
  - the loop of `update`, with its staleness test and counters.

Inputs outside the program are parameters of the model:
- The file system is a tree of directory entries for each given path, plus
  a map from file path to size and modification time.
- The metadata library's output is a map from file path to the metadata keys
  it finds in that file.

Where the code and the program's documented behaviour differ, the model
follows the code:
- `fromVals` raises `ValueError` or `TypeError` on a value it cannot convert
  (`ImageMetadata.StoreValsFields`). It does not leave that field absent.
- `fromString` raises `KeyError` on a key outside the schema
  (`ImageMetadata.StoreStringsUnknownKey`). It does not ignore the key.
- `fromString` stores `None` for a value it cannot convert. That field is
  present with no value, not absent.
- `ExifFilter.apply` applies every filter with `ret &=`, without
  short-circuiting. The first exception ends it.
- A file whose metadata cannot be read still gets a row, with every metadata
  column empty. Its capture time is stored as the text `None`
  (`PhotoDb.MissingCaptureTimeReadsBackAsText`).
- When both ISO keys give a value, the later key
  (`Exif.Nikon3.ISOSpeed`) wins (`ImageMetadata.IsoPrefersSecondKey`).
- The final `rstrip()` of `__str__` also removes trailing whitespace of the
  last value, not only the final tab
  (`SdbFormat.TrailingSpaceOfLastValueLost`).
- `dbRowToString` discards the result of its `rstrip()`, so the trailing
  tab stays (`PhotoDb.DbRowToString`).

## Model

| member | source | states |
|---|---|---|
| ExifFilter.ParseValue | exiffilter.py:78-90 | A float field's text is read as a fraction and converted to float. Every other case is the field type's constructor. A success always has the field's type. |
| ExifFilter.Prefix | exiffilter.py:59-74 | The prefix `+`, `+=`, `-`, `-=` or none selects a comparison other than not-equal. It consumes at most two characters of the text. |
| ExifFilter.ParseSpec | exiffilter.py:52-76 | Parsing a filter text never selects not-equal. The text is empty exactly when no reference value is set (an exists filter). A parsed reference value has the field's type. |
| ExifFilter.ParseWrittenFilter | exiffilter.py:52-76 | Writing a comparison's symbol in front of a value text and parsing it gives back that comparison and that value's parse. |
| ExifFilter.UnsignedIsEquality | exiffilter.py:73-76 | A text without a sign prefix is an equality filter on the whole text. |
| ExifFilter.Evaluate | exiffilter.py:29-50 | With no reference value, the result is whether the field is present. A comparison with an absent field is false. An error can only come from converting a present value. |
| ExifFilter.EvaluateTyped | exiffilter.py:38-50 | On a value of the field's type, applying a filter is its comparison against the reference value and never raises. |
| ExifFilter.Complements | exiffilter.py:41-50 | On values of the field's type, `>` is the negation of `<=` and `<` the negation of `>=`. Equality holds exactly when neither `<` nor `>` does. |
| ExifFilter.EmptyTextIsExists | exiffilter.py:54-58 | The empty filter text gives a greater-than filter with no reference value, which passes exactly the present fields. |
| ExifFilter.RatingAboveTwo | exiffilter.py:59-65 | `+2` on the rating passes 3 and fails 2 and an absent rating. |
| ExifFilter.ExposureBelowFraction | exiffilter.py:66-72 | `-1/250` on a float field is less-than 1/250. |
| ExifFilter.ExposureEqualsFraction | exiffilter.py:73-76 | `1/250` on a float field is equality with 1/250. |
| ExifFilter.OneOver250 | exiffilter.py:86-87 | The fraction text `1/250` has the value 1/250. |
| ExifFilter.ZeroDenominatorRaises | exiffilter.py:86-87 | A float filter `1/0` raises ZeroDivisionError. |
| ExifFilter.NonNumericRaises | exiffilter.py:76-90 | Non-numeric text for an int or float field raises ValueError, after the comparison is set. |
| ExifFilter.Filter.constructor | exiffilter.py:22-26 | A new filter is greater-than, with no reference value and no field. |
| ExifFilter.Filter.ParseFilter | exiffilter.py:52-76 | The filter takes the parsed comparison and reference value. When conversion raises, the comparison is set and the old reference value is kept. |
| ExifFilter.Filter.Apply | exiffilter.py:29-50 | With no reference value, a filter passes exactly the present values. A comparison with an absent value fails. On a value of the field's type, the result is the comparison against the reference value. |
| ExifFilter.NewFilter | exiffilter.py:22-27 | Constructing a filter succeeds exactly when its text parses, and then holds the parse. Otherwise it raises the parse error. |
| ExifFilter.ConjIsForall | exiffilter.py:112-119 | The and-ed filters raise exactly when some filter raises. Otherwise they pass exactly when every filter passes, so no filters pass everything. |
| ExifFilter.ConjOrderIndependent | exiffilter.py:112-119 | When no filter raises, the filters' order does not change the verdict. |
| ExifFilter.TaggedNeverRaises | exiffilter.py:97-107 | A filter built for a schema field never raises on a record whose values have their fields' types. |
| ExifFilter.ExifFilter.constructor | exiffilter.py:93-95 | A new filter set is empty. |
| ExifFilter.ExifFilter.AddFilter | exiffilter.py:97-107 | A None text changes nothing. A field outside the schema raises KeyError. Otherwise exactly one filter of that field's type, with the parsed comparison and value and tagged with the field, is appended; a parse error leaves the list as it was. |
| ExifFilter.ExifFilter.NumFilters | exiffilter.py:109-110 | The number of filters appended so far. With none, every record passes. |
| ExifFilter.ExifFilter.Apply | exiffilter.py:112-119 | The result is the and-ed verdict of all filters on the record's entries. It never raises on a well-typed record. |
| Schema.FieldNamed | ImageMetadata.py:13-30 | A key is looked up in the schema; a key outside it has no field. |
| Schema.SourceKeys | ImageMetadata.py:15-29 | Every field has at least one metadata key to read it from. |
| Schema.NameRoundTrip | ImageMetadata.py:13-30 | Looking up a field's name gives the field back. |
| Schema.SchemaIsClosed | ImageMetadata.py:13-30 | Names and fields correspond one to one. The key order lists every field exactly once. |
| Schema.FieldListed | ImageMetadata.py:13-30 | Every field is in the key order. |
| Schema.GetItem | ImageMetadata.py:117-122 | A key with a stored entry gives that entry. Any other key, including one outside the schema, gives None. |
| Schema.GetExposure | ImageMetadata.py:124-125 | The exposure entry, or None when there is none. |
| Schema.GetAperture | ImageMetadata.py:127-131 | None exactly when there is no aperture value, and otherwise the stored number. |
| Schema.GetIso | ImageMetadata.py:133-137 | None exactly when there is no ISO value, and otherwise the stored number. |
| Schema.GetFocalLength | ImageMetadata.py:139-143 | None exactly when there is no focal length, and otherwise the stored number. |
| Schema.GetFocalLength35 | ImageMetadata.py:145-149 | None exactly when there is no 35 mm focal length, and otherwise the stored number. |
| Schema.GetComment | ImageMetadata.py:157-162 | The comment entry, or None when there is none. |
| Schema.FloatOf | ImageMetadata.py:127-149 | float() of a float field's entry is None exactly when there is none, and otherwise the stored number. |
| Schema.GetRating | ImageMetadata.py:151-155 | int() of the rating is None exactly when there is none, and otherwise the stored integer. |
| Schema.GetOrigtime | ImageMetadata.py:164-165 | str() of the capture time: the text `None` when there is none, else the stored text. |
| Conversions.Construct | ImageMetadata.py:67 | Applying a field type to a raw value yields a value of that type. Otherwise it raises ValueError, or TypeError exactly for a value that is neither text nor number; text never fails. |
| Conversions.ConstructTyped | ImageMetadata.py:82 | Converting a value already of the field's type gives it back. |
| Conversions.ParseFraction | exiffilter.py:86-87 | Fraction of a text raises only ValueError or ZeroDivisionError, the latter only for a text with `/`. An integer text gives that integer. |
| Conversions.IntTextRoundTrip | ImageMetadata.py:52 | int() of str() of an integer is that integer. |
| Conversions.FloatTextRoundTripIntegral | ImageMetadata.py:52 | float() of str() of an integral float is that float. |
| Conversions.NumberTextChars | ImageMetadata.py:52 | str() of a number is non-empty and uses only digits, sign and point. |
| Conversions.Lower | photodb.py:193 | Lower-casing keeps the length. |
| Conversions.RStrip | ImageMetadata.py:58 | rstrip() keeps a prefix that does not end in whitespace, and removes only whitespace. |
| Conversions.LStrip | photodb.py:193 | lstrip('.') keeps a suffix that does not start with a dot, and removes only dots. |
| Conversions.LessTrichotomy | exiffilter.py:41-50 | Python's ordering on values of one field type is a strict total order. |
| SdbFormat.ValueMatch | ImageMetadata.py:64 | The value group of the pattern matches text without a tab or line break, inside the input. |
| SdbFormat.PatternMatch | ImageMetadata.py:64 | A match of the row pattern has a key without a tab and a value without a tab or line break. |
| SdbFormat.FindAll | ImageMetadata.py:64 | Every pair findall returns has a key without a tab and a value without a tab or line break. |
| SdbFormat.FindAllPairsText | ImageMetadata.py:49-52 | findall on written `key=value` pairs, each followed by a tab, gives the pairs back. |
| SdbFormat.FindAllJoinPairs | ImageMetadata.py:58-64 | findall on the tab-joined pairs, with no final tab, gives the pairs back. |
| SdbFormat.StripOnlyFinalTab | ImageMetadata.py:58 | When the last value does not end in whitespace, rstrip() removes only the final tab. |
| SdbFormat.PairsWellFormed | ImageMetadata.py:49-52 | A record whose values are writable gives pairs that findall can read back. |
| SdbFormat.NumbersWritable | ImageMetadata.py:52 | A number or None is written without tabs, line breaks or trailing whitespace. |
| SdbFormat.UnreadWellFormed | ImageMetadata.py:55-56 | The `key=None` pairs of an unread record can be read back. |
| SdbFormat.SerializePresent | ImageMetadata.py:49-58 | A non-empty writable record is written as its present fields' pairs in key order, and findall reads exactly those pairs back. |
| SdbFormat.SerializeUnread | ImageMetadata.py:53-58 | An empty record is written as `key=None` for every key in key order, and findall reads those pairs back. |
| SdbFormat.TrailingSpaceOfLastValueLost | ImageMetadata.py:49-58 | A comment `a ` is written as `comment=a`: rstrip() drops the value's trailing space. |
| SdbFormat.PairsTextAppend | ImageMetadata.py:50-52 | The text of consecutive pairs is the concatenation of their texts. |
| SdbFormat.Serialize | ImageMetadata.py:44-60 | The row text is a prefix of the written pairs. Only whitespace is cut off, and the text never ends in whitespace. |
| SdbFormat.FiveFieldRecordWrittenInKeyOrder | ImageMetadata.py:49-52 | The loop over KEYS fixes the key order: a record holding capture time, comment, aperture and both focal lengths, and nothing else, is written comment, flength35, flength, origtime, aperture. |
| ImageMetadata.ParseEntry | ImageMetadata.py:66-69 | A text stored under a field converts to a value of the field's type, or None. Text fields keep the text. |
| ImageMetadata.StoreStrings | ImageMetadata.py:65-69 | Storing parsed pairs either completes or raises KeyError, and keeps a well-typed record well-typed. |
| ImageMetadata.StoreStringsFields | ImageMetadata.py:65-69 | Pairs with schema keys never raise. Each named field gets its last text's conversion, and every other field is unchanged. |
| ImageMetadata.StoreStringsUnknownKey | ImageMetadata.py:65-67 | The first key outside the schema raises KeyError, after the pairs before it have been stored. |
| ImageMetadata.ParseRendered | ImageMetadata.py:52-67 | A value written by `__str__` reads back as itself when its field's conversion can restore it. |
| ImageMetadata.RestorableWritten | ImageMetadata.py:52 | A restorable value is written without tabs, line breaks or trailing whitespace. |
| ImageMetadata.NoneIsNotANumber | ImageMetadata.py:56-69 | float() and int() reject the text `None`. |
| ImageMetadata.StoreWrittenPairs | ImageMetadata.py:49-69 | Reading back the pairs written for a record stores exactly that record's entries for the listed fields. |
| ImageMetadata.RoundTrip | ImageMetadata.py:44-69 | fromString of `__str__` of a non-empty, well-typed, restorable record rebuilds that record. |
| ImageMetadata.UnreadRoundTrip | ImageMetadata.py:53-69 | fromString of the text of an unread record gives every field its conversion of `None`: the text `None` for text fields, None for numbers. |
| ImageMetadata.UnreadRecordHasEveryField | ImageMetadata.py:53-69 | That unread record has an entry for every field. |
| ImageMetadata.StoreVals | ImageMetadata.py:76-84 | fromVals fails only with ValueError or TypeError. It keeps the values well-typed, and stores no None entry. |
| ImageMetadata.StoreValsFields | ImageMetadata.py:76-84 | fromVals completes exactly when every given value of a schema key converts. A field then holds its last given value's conversion, or is absent when that value is None or it was not given. |
| ImageMetadata.StoreValsIgnoresUnknown | ImageMetadata.py:80-84 | A key outside the schema makes no difference to fromVals. |
| ImageMetadata.Converted | ImageMetadata.py:106-115 | A value taken from a metadata key is present in the source and has the field's type. |
| ImageMetadata.PickFieldSelects | ImageMetadata.py:105-115 | The inner loop of read leaves a field with the last of its keys whose value converts, or as it was when none converts. |
| ImageMetadata.PickAllSelects | ImageMetadata.py:104-115 | Over a list of fields, each listed field gets its last converting key's value and all others are unchanged. |
| ImageMetadata.ReadData | ImageMetadata.py:87-115 | A record read from a file is always well-typed. |
| ImageMetadata.ReadSelects | ImageMetadata.py:104-115 | A read record has exactly the fields one of whose keys converts, each holding the last such key's value. |
| ImageMetadata.LastConvertingTyped | ImageMetadata.py:107-109 | The selected value has the field's type. |
| ImageMetadata.IsoPrefersSecondKey | ImageMetadata.py:104-115 | When `Exif.Nikon3.ISOSpeed` converts, ISO is taken from it, whatever `Exif.Photo.ISOSpeedRatings` holds. |
| ImageMetadata.WritePairs | ImageMetadata.py:50-52 | The loop writes the present fields' pairs in key order, each followed by a tab. |
| ImageMetadata.WriteUnread | ImageMetadata.py:55-56 | The loop writes `key=None` and a tab for every key in key order. |
| ImageMetadata.ImageMetadata.constructor | ImageMetadata.py:37-42 | A new record has the file name and no entries. |
| ImageMetadata.ImageMetadata.Clear | ImageMetadata.py:71-73 | clear empties the record. |
| ImageMetadata.ImageMetadata.FromVals | ImageMetadata.py:76-84 | The record becomes fromVals of the values, starting from empty. |
| ImageMetadata.ImageMetadata.FromString | ImageMetadata.py:62-69 | The record becomes its old entries with findall's pairs stored in order, stopping at a KeyError. |
| ImageMetadata.ImageMetadata.Read | ImageMetadata.py:87-115 | The record becomes the selection from the file's metadata, or empty when the file cannot be read. |
| ImageMetadata.ImageMetadata.ToString | ImageMetadata.py:44-60 | The result is the row text of the record. |
| PhotoDb.ListedIsIn | photodb.py:194 | Testing an extension against the list is list membership. |
| PhotoDb.SplitExt | photodb.py:192 | splitext cuts a path into a root and an extension that make up the path. The extension is empty or starts with a dot. |
| PhotoDb.IsImage | photodb.py:190-197 | A file is an image exactly when its extension, without leading dots and lower-cased, is in IMAGE_EXTENSIONS; an image always has an extension. |
| PhotoDb.RFind | photodb.py:192 | rfind gives the last occurrence of a character, or -1 when there is none. |
| PhotoDb.SplitExtAgrees | photodb.py:192 | The splitext scan cuts a path where the rfind formulation of splitext does, and the two parts make up the path. |
| PhotoDb.ExtensionOfName | photodb.py:192 | A file name whose stem is not only dots has the text after its last dot as extension, in any directory. |
| PhotoDb.ImageByExtension | photodb.py:190-197 | Such a file is an image exactly when its lower-cased extension is in IMAGE_EXTENSIONS. |
| PhotoDb.IsImageOfLower | photodb.py:190-197 | Lower-casing a path lower-cases its extension and does not change whether it is an image. |
| PhotoDb.IsImageIgnoresCase | photodb.py:190-197 | Paths equal up to case are both images or both not. |
| PhotoDb.WalkSound | photodb.py:205-212 | Every file the pruned walk yields lies below the directory on a chain of visible names. |
| PhotoDb.WalkComplete | photodb.py:205-212 | Every file on a chain of visible names below the directory is yielded by the walk. |
| PhotoDb.PathsToFiles | photodb.py:199-214 | Every path given as a file comes out. When no path is a file or a directory, nothing does. |
| PhotoDb.PathsToImageFiles | photodb.py:216-220 | Every path yielded is an image, and the images among pathsToFiles are exactly what is yielded. |
| PhotoDb.PathsToFilesMember | photodb.py:199-214 | A path comes out of pathsToFiles exactly when it was given as a file, or lies on a visible chain below a given directory. |
| PhotoDb.ImagesOnlyMember | photodb.py:216-220 | pathsToImageFiles yields only images, and exactly the images among the files. |
| PhotoDb.MakeRow | photodb.py:115-122 | The row holds the file's size and modification time, str() of the capture time, and each other column the record's entry for its field. |
| PhotoDb.GettersGiveEntries | photodb.py:119 | Each getter gives the record's entry for its column. |
| PhotoDb.Items | photodb.py:100-105 | The values fromVals receives are the row's columns under their field names, in the order given. |
| PhotoDb.RowVals | photodb.py:100-105 | For every field, the last value getMetadata passes under its name is that field's column. |
| PhotoDb.RowValsConvert | photodb.py:100-105 | Every column of a stored row converts back under its field's type. |
| PhotoDb.StoredRecordReadsBack | photodb.py:96-122 | setMetadata then getMetadata of a record without None entries gives the record back, with the capture time as text. |
| PhotoDb.MissingCaptureTimeReadsBackAsText | photodb.py:96-122 | A record without a capture time reads back with the text `None` as capture time. |
| PhotoDb.UpdateNeeded | photodb.py:142-150 | A file without a row always needs updating. A file with a row needs it exactly when its size or time differs. When it has a row but is gone, OSError is raised. |
| PhotoDb.UpdateFileSpec | photodb.py:124-128 | A non-image changes nothing. For an image, OSError is raised when the file is gone; otherwise it gets the row built from its current size and time and the record read from it. No other row changes. |
| PhotoDb.UnreadableImageGetsEmptyRow | photodb.py:124-128 | An image whose metadata cannot be read gets the row of an empty record: every metadata column empty, the capture time the text `None`. |
| PhotoDb.Run | photodb.py:141-157 | Updated plus skipped never exceeds the number of files, and equals it when nothing is raised. |
| PhotoDb.FileStepLocal | photodb.py:124-128 | _updateFile changes only its own file's row, and no row when it raises. |
| PhotoDb.FileStepKeepsCurrent | photodb.py:124-128 | _updateFile keeps a current row current. |
| PhotoDb.FileStepRefreshes | photodb.py:124-128 | _updateFile leaves an image it completes on with a current row. |
| PhotoDb.RunFrame | photodb.py:141-157 | An update run changes no row of a file outside its list. |
| PhotoDb.RunKeepsCurrent | photodb.py:141-157 | An update run keeps every current row current. |
| PhotoDb.RunMakesCurrent | photodb.py:141-157 | A run that completes leaves every file on its list with a current row. |
| PhotoDb.RunSkipsCurrent | photodb.py:145-157 | Without force, a run over files whose rows are current skips them all and changes nothing. |
| PhotoDb.ForceUpdatesAll | photodb.py:152-154 | With force, a completed run updates every file and skips none. |
| PhotoDb.UpdateTwiceSkipsAll | photodb.py:130-157 | After an update completes, all its images are current. A second update without force skips all of them and leaves the table as it was. |
| PhotoDb.CellsTextSplits | photodb.py:88-94 | The row text ends in a tab. Cutting it at tabs gives back each cell's text in order when no cell's text holds a tab. |
| PhotoDb.TerminatedSplits | photodb.py:91-92 | Tab-terminated texts without tabs are recovered by cutting at tabs. |
| PhotoDb.DbRowToString | photodb.py:88-94 | The loop produces each cell's text followed by a tab, and the empty text for an empty row. |
| PhotoDb.PhotoDB.constructor | photodb.py:45-57 | A new database has an empty images table. |
| PhotoDb.PhotoDB.GetMetadata | photodb.py:96-108 | No row gives None. Otherwise the result is a new record holding fromVals of the row's columns, or fromVals's error. |
| PhotoDb.PhotoDB.SetMetadata | photodb.py:115-122 | Inserting or updating gives the file exactly the row built from its size, time and the record. A gone file raises OSError and changes nothing. |
| PhotoDb.PhotoDB.UpdateFile | photodb.py:124-128 | The table and outcome are those of _updateFile's specification. |
| PhotoDb.PhotoDB.Update | photodb.py:130-164 | The table, counters and outcome are those of the run over pathsToImageFiles of the paths. |
| PhotoDb.PhotoDB.UpdateFiles | photodb.py:141-157 | The loop's table, counters and outcome are those of the run over the files. |

## Left out

- `getExivField` and pyexiv2: the metadata a file holds is a parameter, a map from metadata key to raw value. A file the library cannot open or decode (`UnicodeDecodeError`, `IOError`) is a file absent from that map.
- Rational values from pyexiv2 (`to_float` in `parse_value`): the raw values are text, integers, floats and other values only.
- SQLite and persistence: `load`, `close`, `save`, the commit, `select`, `getAll`, `getMetadataStr`, `size` and `getInfo` are not part of this model. The images table is a map kept in memory.
- After an error ends `update`, the source does not call `save()`, so its changes are not committed. The model keeps the rows written before the error.
- `os.path.abspath` is the identity: paths are taken as already absolute.
- `os.path.isfile` and `os.path.isdir` are replaced by the kind given with each path. `os.walk`'s listing order is the order of the given entries. Symbolic links are not modelled.
- `os.path.splitext` and `os.path.join` are modelled for `/` separators only.
- The type check of `update` on its `paths` argument: the model takes a list of paths.
- Generators are modelled as the sequences they yield.
- `main`, the command-line tools and `photofind.py` are not part of this model.
- Messages written to stderr and `print` output.
- Conversions.FloatText: str() of a float is written as a decimal with at most 12 fractional digits, trailing zeros removed. Python 2's `%.12g` formatting, with exponents, is not modelled; the round-trip lemma covers integral floats.
- Conversions.ParseFloat: float() text is `[+-]digits[.digits]`. int() text is `[+-]digits`, and Fraction text is `[+-]digits[/digits]`. Surrounding whitespace, exponents, `inf` and `nan` are not accepted.
- Conversions.Lower: only ASCII letters are lower-cased.
- The integer codes of the comparisons (`EQ=0` to `GE=6`, exiffilter.py:13-18) are not modelled: a comparison is a datatype constructor.
- The order of keys in the dictionary `getMetadata` passes to `fromVals` is taken to be the order of its SELECT.
- ExifFilter.Filter.Apply: the not-equal comparison, on which the source's `apply` falls through and returns None, is excluded by `Valid()`, since `parse_filter` never selects it.
- Schema.FloatOf, Schema.GetRating, Schema.GetOrigtime: these require a well-typed record, which the getters' float()/int()/str() then leave unchanged. A record built by `read`, `fromString` or `fromVals` is always well-typed.
- PhotoDb.PhotoDB.SetMetadata: it requires a well-typed record, as the getters do.
