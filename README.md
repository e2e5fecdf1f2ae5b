# JavaUtils core, modelled in Dafny

This project models the computational core of the JavaUtils library
(`com.gutil`) and proves properties of it. It covers five classes:

- **XMLUtil**. A DOM element is a mutable object whose children are an
  ordered list of element, text and other nodes. `stripElement` is an
  imperative method: it walks each child list backwards, removes blank text
  children in place and recurses into child elements. The method is proved
  to leave the element's value view (`Model`) equal to a pure specification,
  `XmlTree.Stripped`. Lemmas about that specification say:
  - no blank text survives anywhere;
  - every other child survives in its original relative order, unchanged
    apart from its own strip;
  - stripping twice removes nothing.

  `createNewDocument`, `createNewDocumentWithRoot` and `getRootElement` are
  modelled on the same objects. `toString` and `saveDocument` strip the
  caller's document in place before rendering it. The XML transformer is an
  opaque function parameter: it takes the tree handed to it and returns the
  text and whether it completed.
- **StringUtil**. The null-safe `isEmpty` and `isBlank`, `reverse`,
  `padLeading` and `padTrailing`, and the four any-prefix / any-suffix
  matchers. A Java `String` that may be null is an `Option<string>`. The
  varargs array is an `Option<seq<Option<string>>>`. A null candidate reached
  by the stream gives `Err(NullPointerException)`.
- **CalendarUtil**. This covers:
  - `isLeapYear`, as `java.util.Calendar` counts the days of a year: the
    Julian rule up to the 1582 cutover, the Gregorian rule after it. The
    Gregorian rule of `LocalDate` is modelled beside it;
  - `getDaysBetween`, modelled as day numbers of the proleptic Gregorian
    calendar (ISO 8601:2004, section 3.2.1) followed by the 32-bit `(int)`
    cast;
  - `getFullYearsBetween`, modelled after `Period.between`: whole months
    with the day-of-month borrow, divided by 12, negated when the dates are
    swapped;
  - the ranges of the random day and date generators. Each draw of
    `java.util.Random` is an arbitrary choice (`:|`).
- **MathUtil**. The `int` and `long` overloads of `adjustToRange`, and the
  range contract of `randomInt` and `randomLong`. The `Width` parameter says
  which Java type is meant.
- **FileSizeUnit**. The five byte-count constants and `convert`, computed
  over exact reals.

Files:

| file | module | contents |
|---|---|---|
| wrappers.dfy | Wrappers | `Option`, `Result` and the Java exceptions the model raises |
| xml_tree.dfy | XmlTree | the node tree as a value and the specification of the strip |
| xml_util.dfy | XmlUtil | `Element`, `Document` and `File` objects, `StripElement`, `ToText`, `SaveDocument` |
| string_util.dfy | StringUtil | the string helpers and `Character.isWhitespace` |
| calendar_util.dfy | CalendarUtil | months, dates, day numbers and the calendar operations |
| math_util.dfy | MathUtil | `adjustToRange` and the random-range methods |
| file_size_unit.dfy | FileSizeUnits | the unit table and `convert` |

## Model

| member | source | states |
|---|---|---|
| XmlUtil.StripElement | src/main/java/com/gutil/XMLUtil.java:188-202 | A null element is left alone. Otherwise the subtree stays a well-formed tree with the same objects, and its value becomes `Stripped` of its old value. The backward loop keeps the already-visited suffix stripped and the rest untouched while the list shrinks. |
| XmlTree.StrippedHasNoBlankText | src/main/java/com/gutil/XMLUtil.java:193-201 | After the strip, no Text node with blank data is left anywhere in an element's subtree. |
| XmlTree.StrippedChildrenHaveNoBlankText | src/main/java/com/gutil/XMLUtil.java:194-200 | The stripped child list holds no blank text at any depth. |
| XmlTree.StrippedChildrenAreKept | src/main/java/com/gutil/XMLUtil.java:194-200 | The stripped child list is exactly the kept children, in order: its j-th entry is the stripped form of original child `KeptIndices[j]`. |
| XmlTree.KeptIndicesAreKept | src/main/java/com/gutil/XMLUtil.java:196-197 | Only children that are not blank text are kept. |
| XmlTree.KeptIndicesComplete | src/main/java/com/gutil/XMLUtil.java:196-199 | Every child that is not blank text is kept: element, non-blank text and other nodes alike. |
| XmlTree.KeptIndicesIncrease | src/main/java/com/gutil/XMLUtil.java:194-199 | Kept children keep their original relative order. |
| XmlTree.Stripped | src/main/java/com/gutil/XMLUtil.java:188-202 | The strip never changes a node's kind, tag or attributes, and leaves text and other nodes exactly as they are. |
| XmlTree.StrippedChildren | src/main/java/com/gutil/XMLUtil.java:194-200 | Stripping a child list never adds a child and leaves no blank Text child in it. |
| XmlTree.StrippedFixesClean | src/main/java/com/gutil/XMLUtil.java:196-197 | A subtree with no blank text is left exactly as it is. |
| XmlTree.StripIdempotent | src/main/java/com/gutil/XMLUtil.java:188-202 | Stripping a second time removes nothing. |
| XmlTree.InterleavedBlanksExample | src/main/java/com/gutil/XMLUtil.java:194-200 | Blank texts around and between two elements are all removed; the two elements stay in order. |
| XmlTree.NonBlankTextKept | src/main/java/com/gutil/XMLUtil.java:196 | Text with a visible character survives unchanged, even with whitespace around it. |
| XmlUtil.Element.constructor | src/main/java/com/gutil/XMLUtil.java:53 | `createElement` gives a new element with the tag, no attributes and no children. |
| XmlUtil.Document.constructor | src/main/java/com/gutil/XMLUtil.java:37-44 | `createNewDocument` gives a new document without a root. |
| XmlUtil.CreateNewDocumentWithRoot | src/main/java/com/gutil/XMLUtil.java:51-56 | The new document's tree is a single root with the given tag, no attributes and no children. |
| XmlUtil.GetRootElement | src/main/java/com/gutil/XMLUtil.java:94-96 | Null for a null document, the document's root element otherwise. |
| XmlUtil.NodeValue | src/main/java/com/gutil/XMLUtil.java:166-182 | Reading the live subtree out, as the transformer walks it, gives exactly the element's value `Model`. |
| XmlUtil.StripWhitespace | src/main/java/com/gutil/XMLUtil.java:120 | `String.strip`: the result is a slice of the input with only whitespace around it, and it neither starts nor ends with whitespace. |
| XmlUtil.StripWhitespaceFixesTrimmed | src/main/java/com/gutil/XMLUtil.java:120 | A string that neither starts nor ends with whitespace is returned unchanged. |
| XmlUtil.StripWhitespaceIdempotent | src/main/java/com/gutil/XMLUtil.java:120 | Stripping the rendered text twice is stripping it once. |
| XmlUtil.ToText | src/main/java/com/gutil/XMLUtil.java:113-124 | `toString(document, transformer)` strips the caller's document in place first. It renders the stripped tree and returns the stripped text. A failed render gives `RuntimeException("Could not convert XML document to String.")`. |
| XmlUtil.StrippedRootIsClean | src/main/java/com/gutil/XMLUtil.java:115-116 | The tree handed to the transformer has no blank text, and stripping it again changes nothing. |
| XmlUtil.SaveDocument | src/main/java/com/gutil/XMLUtil.java:151-158 | An unwritable file is left alone and the call fails. Otherwise the file is truncated first, and a null document fails with the file left empty. A non-null document is stripped in place and its rendering is written to the file. A failed render is a `RuntimeException("Error while saving XML document.")`. |
| StringUtil.IndexOfNonWhitespace | src/main/java/com/gutil/StringUtil.java:29 | The position of the first non-whitespace character, with only whitespace before it; the length of the string if there is none. |
| StringUtil.IsWhitespace | src/main/java/com/gutil/StringUtil.java:29 | `Character.isWhitespace`: no printable Latin-1 character is whitespace, and neither is any no-break space (U+00A0, U+2007, U+202F). |
| StringUtil.IsBlankString | src/main/java/com/gutil/StringUtil.java:29 | `String.isBlank` holds iff every character is whitespace. |
| StringUtil.IsEmpty | src/main/java/com/gutil/StringUtil.java:18-20 | True iff the text is null or "". |
| StringUtil.IsBlank | src/main/java/com/gutil/StringUtil.java:28-30 | True iff the text is null or all of its characters are whitespace. |
| StringUtil.EmptyIsBlank | src/test/java/com/gutil/StringUtilTest.java:15-25 | Empty implies blank. " " is blank but not empty, "\t" and "\n" are blank, and "text" and "_" are not. |
| StringUtil.Reversed | src/main/java/com/gutil/StringUtil.java:42-43 | Same length; character i of the result is character n-1-i of the input. |
| StringUtil.Reverse | src/main/java/com/gutil/StringUtil.java:37-44 | Null stays null; anything else is reversed character by character. |
| StringUtil.ReverseInvolutive | src/main/java/com/gutil/StringUtil.java:37-44 | Reversing twice gives back the input, null included. |
| StringUtil.ReverseExamples | src/test/java/com/gutil/StringUtilTest.java:29-34 | "a", "xyz" and "abba" reverse as the tests expect. |
| StringUtil.Repeat | src/main/java/com/gutil/StringUtil.java:60 | `String.valueOf(c).repeat(n)`: n copies of c. |
| StringUtil.Utf16Length | src/main/java/com/gutil/StringUtil.java:56 | `String.length()` counts UTF-16 code units: at least one and at most two per character. |
| StringUtil.Utf16LengthConcat | src/main/java/com/gutil/StringUtil.java:60 | The code units of a concatenation are those of its parts. |
| StringUtil.Utf16LengthBmp | src/main/java/com/gutil/StringUtil.java:56 | Text made only of Basic Multilingual Plane characters has one code unit per character. |
| StringUtil.Utf16LengthRepeat | src/main/java/com/gutil/StringUtil.java:60 | n copies of a Java `char` are n code units. |
| StringUtil.Utf16LengthReversed | src/main/java/com/gutil/StringUtil.java:42-43 | Reversing the characters keeps the number of code units. |
| StringUtil.PadLeading | src/main/java/com/gutil/StringUtil.java:54-61 | Null is "". A text at least `expectedLength` code units long is returned unchanged. Otherwise the result has exactly `expectedLength` code units, ends with the text, and every added leading character is `pad`. |
| StringUtil.PadTrailing | src/main/java/com/gutil/StringUtil.java:71-78 | The mirror image: the text is a prefix, the added suffix is all `pad`, and the length in code units is the larger of the text's and `expectedLength`. |
| StringUtil.ReversedConcat | src/main/java/com/gutil/StringUtil.java:42-43 | Reversing a concatenation reverses the order of the parts. |
| StringUtil.PadLeadingMirrorsPadTrailing | src/main/java/com/gutil/StringUtil.java:54-78 | Reversing a left-padded text gives the right-padded reversed text. |
| StringUtil.PaddingExamples | src/test/java/com/gutil/StringUtilTest.java:36-47 | A null text, padding to a longer length, a shorter target and the empty text pad as the tests expect. |
| StringUtil.PaddingCountsCodeUnits | src/main/java/com/gutil/StringUtil.java:56-60 | A character outside the Basic Multilingual Plane counts as two: padding one emoji to 3 adds one pad, and two emoji are already long enough. |
| StringUtil.LongerNeverMatches | src/test/java/com/gutil/StringUtilTest.java:67 | A candidate longer than the text is neither a prefix nor a suffix of it. |
| StringUtil.AnyMatch | src/main/java/com/gutil/StringUtil.java:92 | Stream `anyMatch`, left to right. `Ok(true)` means some candidate matches with no null before it. `Ok(false)` means every candidate is present and none matches. `Err(NullPointerException)` means a null comes before any match. |
| StringUtil.AnyMatchWithoutNulls | src/main/java/com/gutil/StringUtil.java:92 | Without null candidates the result is whether some candidate matches. |
| StringUtil.ToLower | src/main/java/com/gutil/StringUtil.java:107 | `toLowerCase` as the model's per-character lowering: the same length, lowered character by character. |
| StringUtil.LowerCandidates | src/main/java/com/gutil/StringUtil.java:108 | `map(String::toLowerCase)`: nulls stay null, the others are lowered. |
| StringUtil.LoweredWithoutNulls | src/main/java/com/gutil/StringUtil.java:107-108 | With no null candidates, the ignore-case test asks whether some lowered candidate matches the lowered text. |
| StringUtil.StartsWithAny | src/main/java/com/gutil/StringUtil.java:87-93 | False for a null text or a null or empty candidate array. Without null candidates it is true iff some candidate is a prefix of the text. |
| StringUtil.StartsWithAnyIgnoreCase | src/main/java/com/gutil/StringUtil.java:102-109 | The same guard. Otherwise true iff some lowered candidate is a prefix of the lowered text. |
| StringUtil.EndsWithAny | src/main/java/com/gutil/StringUtil.java:118-124 | The same guard. Otherwise true iff some candidate is a suffix of the text. |
| StringUtil.EndsWithAnyIgnoreCase | src/main/java/com/gutil/StringUtil.java:133-140 | The same guard. Otherwise true iff some lowered candidate is a suffix of the lowered text. |
| StringUtil.LowerKeepsMatch | src/main/java/com/gutil/StringUtil.java:107-108 | Under the per-character lowering, lowering both text and candidate keeps a prefix or suffix match. |
| StringUtil.LoweredAnyMatchKeepsTrue | src/main/java/com/gutil/StringUtil.java:107-108 | Under the per-character lowering, a successful case-sensitive `anyMatch` stays successful after lowering. |
| StringUtil.CaseSensitiveMatchImpliesIgnoreCase | src/main/java/com/gutil/StringUtil.java:87-140 | Under the per-character lowering, every case-sensitive match, prefix or suffix, is also an ignore-case match. |
| StringUtil.GuardExamples | src/test/java/com/gutil/StringUtilTest.java:58-60 | A null text, a null array and an empty array give false. |
| StringUtil.PrefixExamples | src/test/java/com/gutil/StringUtilTest.java:56-69 | Prefix matches and non-matches from the tests, including a case mismatch and a longer candidate. |
| StringUtil.IgnoreCaseExamples | src/test/java/com/gutil/StringUtilTest.java:64-66 | Ignore-case matches succeed where only the case differs. |
| StringUtil.SuffixExamples | src/test/java/com/gutil/StringUtilTest.java:80-93 | Suffix matches and non-matches from the tests, including a reversed candidate and a longer candidate. |
| CalendarUtil.MonthOf | src/main/java/com/gutil/CalendarUtil.java:71 | `Month.of(v)` is the month whose value is v. |
| CalendarUtil.MonthOfValue | src/main/java/com/gutil/CalendarUtil.java:71 | `Month.of(m.getValue())` is m. |
| CalendarUtil.LengthOfMonth | src/main/java/com/gutil/CalendarUtil.java:93-101 | Month lengths are 28 to 31. A length exceeds `minLength` only for February of a leap year, where it is 29. |
| CalendarUtil.IsLeapYear | src/main/java/com/gutil/CalendarUtil.java:119-123 | The year has 366 days in `java.util.Calendar` iff it is divisible by 4, up to the 1582 cutover year; after it, iff the Gregorian rule calls it leap. This holds for the years a GregorianCalendar holds whole (see Left out). |
| CalendarUtil.LeapYearExamples | src/test/java/com/gutil/CalendarUtilTest.java:67-77 | 2016, 2008, 2000 and 2012 are leap years; 2009 and 1900 are not. 1500 is leap for `Calendar` but not for `LocalDate`, and 1582 is not leap. |
| CalendarUtil.IsAfter | src/main/java/com/gutil/CalendarUtil.java:24 | `isAfter`: a date is never after itself. Different years are ordered by year, and two days of one month by day. |
| CalendarUtil.IsAfterIsStrictTotal | src/main/java/com/gutil/CalendarUtil.java:24 | `isAfter` is asymmetric, and two different dates are always ordered one way. |
| CalendarUtil.YearStartStep | src/main/java/com/gutil/CalendarUtil.java:122 | The next year starts one year length later. A proleptic Gregorian year has 366 days iff the Gregorian rule calls it leap, which is the comparison `isLeapYear` makes after the cutover. |
| CalendarUtil.YearStartCounts | src/main/java/com/gutil/CalendarUtil.java:60-62 | The closed form for the first day number of a year equals the sum of the year lengths counted from year 0, before or after it. |
| CalendarUtil.YearStartGrows | src/main/java/com/gutil/CalendarUtil.java:60-62 | Later years start at least 365 days per year later. |
| CalendarUtil.MonthsTileYear | src/main/java/com/gutil/CalendarUtil.java:60-62 | The months fill the year in order, without overlap. |
| CalendarUtil.EpochDay | src/main/java/com/gutil/CalendarUtil.java:60-62 | 1970-01-01, java.time's epoch day 0, is day 719528 here, so differences agree. |
| CalendarUtil.DayNumberOrder | src/main/java/com/gutil/CalendarUtil.java:60-62 | For valid dates, day numbers follow the `isAfter` order and are equal only for equal dates. |
| CalendarUtil.ToInt | src/main/java/com/gutil/CalendarUtil.java:61 | The `(int)` cast of a long is in the int range, is congruent modulo 2^32, and keeps values already in range. |
| CalendarUtil.DaysBetween | src/main/java/com/gutil/CalendarUtil.java:60-62 | `getDaysBetween` is an int congruent to the difference of day numbers modulo 2^32. |
| CalendarUtil.DaysBetweenCounts | src/main/java/com/gutil/CalendarUtil.java:60-62 | Within the int range, `getDaysBetween` is the signed difference of day numbers. It is positive iff the end is after the start and zero iff the dates are equal. |
| CalendarUtil.DaysBetweenAntisymmetric | src/main/java/com/gutil/CalendarUtil.java:54-62 | Swapping the dates gives the int negation of the result, which is plain negation except at -2^31. A date to itself gives 0. |
| CalendarUtil.DaysBetweenExamples | src/test/java/com/gutil/CalendarUtilTest.java:40-44 | The tests' values: 3, -3, 0, 366 and 26254. |
| CalendarUtil.DaysBetweenFarApart | src/main/java/com/gutil/CalendarUtil.java:61 | The first and last dates of the LocalDate range are 730484999633 days apart, but the cast returns 340559313. |
| CalendarUtil.WholeMonthsBetween | src/main/java/com/gutil/CalendarUtil.java:28 | `Period.between` in total months, for a start not after the end, is never negative. |
| CalendarUtil.FullYearsBetween | src/main/java/com/gutil/CalendarUtil.java:23-29 | Never positive when the start is after the end, never negative otherwise. |
| CalendarUtil.FullYearsCountsAnniversaries | src/main/java/com/gutil/CalendarUtil.java:23-29 | For a start not after the end, the result r is non-negative. The r-th anniversary of the start is not after the end and the (r+1)-th is, so only whole years are counted. |
| CalendarUtil.KeyOrder | src/main/java/com/gutil/CalendarUtil.java:24 | `isAfter` is the order of (proleptic month, day) keys. |
| CalendarUtil.FullYearsAntisymmetric | src/main/java/com/gutil/CalendarUtil.java:23-29 | Swapping the dates negates the count. |
| CalendarUtil.FullYearsExamples | src/test/java/com/gutil/CalendarUtilTest.java:25-28 | 3, -3 and 12 as in the tests. 2020-02-29 to 2021-02-28 is 0 whole years. |
| CalendarUtil.MonthOfRoll | src/main/java/com/gutil/CalendarUtil.java:71 | `Month.of(roll + 1)` is the month whose value is roll + 1. |
| CalendarUtil.RandomMonth | src/main/java/com/gutil/CalendarUtil.java:68-72 | The month is `Month.of(r + 1)` for a roll r in [0, 12), so `Month.of` never throws. |
| CalendarUtil.RandomDayOfMonth | src/main/java/com/gutil/CalendarUtil.java:80-83 | The day is in [1, minLength(month)], so February never yields 29, and it fits the month in any year. |
| CalendarUtil.RandomDayBound | src/main/java/com/gutil/CalendarUtil.java:93-101 | The largest day `getRandomDayOfMonth(month, year)` can draw is the month's length as `isLeapYear` counts the year. From the cutover to the last year a GregorianCalendar holds whole, it is the length `LocalDate` uses. |
| CalendarUtil.RandomDayOfMonthInYear | src/main/java/com/gutil/CalendarUtil.java:93-101 | The day is in [1, 29] for February of a year `isLeapYear` accepts and in [1, minLength] otherwise. It never exceeds that bound. |
| CalendarUtil.LocalDateOf | src/main/java/com/gutil/CalendarUtil.java:111 | `LocalDate.of` succeeds iff the year is in range and the day exists in that month of the proleptic Gregorian calendar. Otherwise it throws a `DateTimeException`. |
| CalendarUtil.RandomDate | src/main/java/com/gutil/CalendarUtil.java:108-112 | Any failure is a `DateTimeException`, and it always fails outside the LocalDate range. Within the years a GregorianCalendar holds whole, it never fails after 1582, and before that it fails only when `isLeapYear` accepts a year the Gregorian rule does not. A success is a valid date of that year, from January 1 to December 31. |
| CalendarUtil.RandomDateCanFail | src/main/java/com/gutil/CalendarUtil.java:93-112 | For 1500 the February draw may reach 29, but `LocalDate.of` rejects 1500-02-29. |
| CalendarUtil.RandomDayOfMonthInIsoYear | src/main/java/com/gutil/CalendarUtil.java:93-101 | The day never exceeds the month's length in the proleptic Gregorian calendar. This is the leap test `LocalDate` uses. |
| CalendarUtil.RandomValidDate | src/main/java/com/gutil/CalendarUtil.java:108-112 | Fails with a `DateTimeException` iff the year is outside the LocalDate range. Otherwise it returns a valid date of that year, from January 1 to December 31. |
| MathUtil.Clamp | src/main/java/com/gutil/MathUtil.java:24 | `Math.min(max, Math.max(min, value))` lies in [min, max]. A value inside is kept, one below gives min and one above gives max. |
| MathUtil.AdjustToRange | src/main/java/com/gutil/MathUtil.java:19-40 | Both overloads: `IllegalArgumentException` iff min > max. Otherwise the result lies in [min, max] and fits the type. It equals the value iff the value is in range; below gives min, above gives max. |
| MathUtil.AdjustToRangeIdempotent | src/main/java/com/gutil/MathUtil.java:24 | Adjusting an adjusted value changes nothing. |
| MathUtil.AdjustToRangeIsClosest | src/main/java/com/gutil/MathUtil.java:12-18 | No value of the range is nearer to the input than the result. |
| MathUtil.AdjustToRangeMonotone | src/main/java/com/gutil/MathUtil.java:24 | Adjusting keeps the order of values. |
| MathUtil.AdjustToRangeExamples | src/test/java/com/gutil/MathUtilTest.java:10-20 | The tests' int and long cases, including the two min > max errors. |
| MathUtil.RandomBetween | src/main/java/com/gutil/MathUtil.java:63-77 | `IllegalArgumentException` iff min >= max (as `Random.nextInt/nextLong(origin, bound)` throws). Otherwise a value in [min, max) of the type. |
| MathUtil.RandomBetweenSingleton | src/test/java/com/gutil/MathUtilTest.java:37 | A range holding one value yields that value: `randomInt(4, 5)` is 4. |
| FileSizeUnits.NumberOfBytesIsPower | src/main/java/com/gutil/FileSizeUnit.java:17-21 | BYTE to TERABYTE hold 1024^0 to 1024^4 bytes. |
| FileSizeUnits.NumberOfBytes | src/main/java/com/gutil/FileSizeUnit.java:34-36 | `getNumberOfBytes` is positive and fits in a long. |
| FileSizeUnits.NextUnitIs1024Times | src/main/java/com/gutil/FileSizeUnit.java:5-21 | Each unit is exactly 1024 times the previous one. |
| FileSizeUnits.NumberOfBytesIncreases | src/main/java/com/gutil/FileSizeUnit.java:17-21 | The byte counts strictly increase with the declaration order, and only then. |
| FileSizeUnits.Convert | src/main/java/com/gutil/FileSizeUnit.java:46-48 | The result in the target unit holds the same number of bytes as the value in the original unit. |
| FileSizeUnits.ConvertUnique | src/main/java/com/gutil/FileSizeUnit.java:46-48 | Any value holding that many bytes in the target unit is the result. |
| FileSizeUnits.ConvertSameUnit | src/main/java/com/gutil/FileSizeUnit.java:46-48 | Converting to the same unit returns the value, negative values included. |
| FileSizeUnits.ConvertRoundTrip | src/main/java/com/gutil/FileSizeUnit.java:46-48 | Converting a to b and back to a returns the original value. |
| FileSizeUnits.ConvertComposes | src/main/java/com/gutil/FileSizeUnit.java:46-48 | Converting a to b and then to c is converting a to c. |
| FileSizeUnits.RatioPositive | src/main/java/com/gutil/FileSizeUnit.java:47 | The conversion factor is positive, and converting is multiplying by it. |
| FileSizeUnits.ConvertLinear | src/main/java/com/gutil/FileSizeUnit.java:46-48 | Conversion is additive and homogeneous in the value. |
| FileSizeUnits.ConvertKeepsSign | src/main/java/com/gutil/FileSizeUnit.java:46-48 | The result is positive, zero or negative exactly when the value is. |
| FileSizeUnits.ConvertExamples | src/test/java/com/gutil/FileSizeUnitTest.java:36-44 | 1 KB is 1024 B, 1.5 GB is 1536 MB, 512 GB is 0.5 TB, 2048 B is 2 KB, and -3 TB stays -3 TB. |

## Left out

- XML parsing and serialisation inside javax.xml are not modelled (`DocumentBuilderFactory`, `loadDocumentFromFile`, `createDefaultTransformer`, the output declaration line and indentation). The rendering is an opaque parameter.
- The overloads `toString(document)`, `saveDocument(document, file)` and `saveDocument(document, file, indent)` are not modelled. They only build the default transformer and call the modelled overloads.
- The cause chained into each wrapping `RuntimeException`, and the `ParserConfigurationException` path of `createNewDocument`, are not modelled. Only the message and the failure itself are.
- `createElement` does not model tag-name validation. Appending an element that already has a parent is also outside the model: `CreateNewDocumentWithRoot` builds a fresh element.
- CDATA sections are Text nodes in the DOM and are treated as text. Comments, processing instructions and entity references are one "other" kind. Document-level nodes other than the root element are not modelled.
- XmlUtil.SaveDocument: the model reduces the file system to one writable flag and the file's contents. Paths, permissions and partial writes by the transformer are not modelled.
- FileUtil is not part of this model: every operation there is a file-system side effect or path normalisation.
- Floating point is not modelled: the `double` overload of `adjustToRange`, `randomDouble` and `getYearsBetween` (which divides by 365.0) are left out.
- FileSizeUnits.Convert: computed over exact reals, so IEEE double rounding of the quotient and the product is not modelled.
- CalendarUtil.IsLeapYear: `Calendar.getInstance()` is taken to be a GregorianCalendar with the default cutover (15 October 1582). Non-Gregorian default calendars (Buddhist or Japanese imperial locales) are not modelled. Years before 1 are taken as proleptic Julian years (0 is 1 BC), which is how the lenient calendar normalises them.
- CalendarUtil.RandomMonth: the contract says only that the month comes from some roll in [0, 12). The distribution of every random draw is not modelled, only the ranges.
- Null `LocalDate` and `Month` arguments (a NullPointerException in Java) are not modelled: `Date` and `Month` values are never null.
- CalendarUtil.DaysBetweenCounts states the exact day count only when the difference fits an int. Beyond that, `DaysBetweenFarApart` shows what the cast returns.
- StringUtil.LowerChar: `String.toLowerCase` depends on the locale and on Unicode case mappings. The model lowers the ASCII and Latin-1 capitals one character at a time.
- StringUtil.Reversed: a Dafny `char` is a Unicode scalar value, so a Java string holding an unpaired surrogate has no counterpart here. Well-formed strings are reversed character by character, which keeps surrogate pairs together as `StringBuilder.reverse` does.
- StringUtil.PadLeading, StringUtil.PadTrailing: a `pad` that is a lone surrogate code unit cannot be represented, so `pad` is a character of the Basic Multilingual Plane. Lengths are counted in UTF-16 code units, as in Java.
- CalendarUtil.IsLeapYear, CalendarUtil.RandomDayBound, CalendarUtil.RandomDate: a GregorianCalendar keeps its time as a long count of milliseconds. It holds the years 292,269,054 BC to 292,278,993 AD whole, which are `CalendarMinYear` to `CalendarMaxYear`. Beyond them its arithmetic wraps and `isLeapYear` reads the length of some other year, which the model does not follow. The model applies the two leap rules to every int year. The contracts of `RandomDayBound` and `RandomDate` make their claims about agreement with `LocalDate` only within those years.
- StringUtil.StartsWithAny, StringUtil.StartsWithAnyIgnoreCase, StringUtil.EndsWithAny and StringUtil.EndsWithAnyIgnoreCase: with null candidates, the exact outcome is stated by `AnyMatch` (true, false or NullPointerException in stream order) rather than in the contracts of these four functions.
- StringUtil.ToLower, StringUtil.LowerKeepsMatch, StringUtil.LoweredAnyMatchKeepsTrue, StringUtil.CaseSensitiveMatchImpliesIgnoreCase: these hold for the model's per-character lowering, not for Java's `toLowerCase`. Java lowers a capital sigma at the end of a word to final sigma (U+03C2) and any other capital sigma to U+03C3. So `endsWithAny("ΑΣ", "Σ")` is true while `endsWithAnyIgnoreCase("ΑΣ", "Σ")` is false. Java also lowers U+0130 to two characters, so the length is not always kept.

## Findings

| source | as written | input that shows it | evidently intended | confidence | as-written member | corrected member |
|---|---|---|---|---|---|---|
| src/main/java/com/gutil/CalendarUtil.java:93-123 | `getRandomDate` bounds the day by `isLeapYear`, which asks `java.util.Calendar` and so uses the Julian rule before 1582. It then builds the date with `LocalDate.of`, which uses the Gregorian rule. | `getRandomDate(1500)` drawing February and then day 29: `LocalDate.of(1500, FEBRUARY, 29)` throws a `DateTimeException`. The same holds for 100, 200, 300, 500 and every year up to 1582 divisible by 100 but not by 400. | A valid date of the given year for every year of the LocalDate range. | not executed | CalendarUtil.RandomDateCanFail | CalendarUtil.RandomValidDate |
