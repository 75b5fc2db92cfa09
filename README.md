# App.Wechats core, modelled in Dafny

This project models the part of the App.Wechats C# library that does real computation, and proves properties of it:

- **The reflection-driven XML object mapper** (`Xmlizer`).
  - The writer turns a value into markup by the value's runtime type. Strings, enums, dates and primitives become text. Lists, dictionaries and objects become nested elements.
  - The reader rebuilds a value of a declared type from an XML node tree.
  - The writer is the class `Xmlizer.Xmlizer`. Its methods append to a `StringBuilder` class, and each is proved to append the serialisation of a specification tree (`XmlWriting`).
  - The reader's methods fill lists and dictionaries in loops, and are proved equal to the specification functions of `XmlReading`.
  - `XmlRoundTrip` proves which values read back as written, and which do not: list items tagged by runtime type, dictionary keys encoded only conditionally, the padding around CDATA sections.
- **The type classifier and the scalar-text parser** the mapper relies on:
  - `Types`, covering SerializationNode.FromType and the Reflector.Type predicates;
  - `Values`, the runtime values;
  - `ConvertorParse`, covering ParseBasicType, ParseEnum and ParseEnums;
  - `EnumNames`, how Enum.Parse reads a comma-separated list of member names and ORs their values;
  - `Numbers`, the integer text forms.
- **The WeChat signing canonicalisation.**
  - The sorted query string (`Wechat`).
  - The push-message signature.
  - The payment signature and its check (`WechatPay`).
  - The push-message reply documents built through the mapper (`PushMessages`).
- **Self-contained encoders and helpers:**
  - the hex, bit and `\u` encoders (`Encoder`);
  - cyclic XOR (`EncryptHelper`);
  - the `multipart/form-data` body of section 4 of RFC 7578, with the boundary syntax of section 5.1.1 of RFC 2046 (`HttpHelper`);
  - the JSON `\u` escaping and the timestamp converter (`JsonConverters`);
  - path and URL text helpers (`IOFile`);
  - string helpers (`StringHelper`, `Strings`, `Util`);
  - list operations (`ListHelper`);
  - weekday scheduling over dates counted in ticks (`DateTimeHelper`).

Source files that change state step by step are modelled with methods, loops and classes. Each method is proved against a specification function, and the properties are proved as lemmas about those functions. Expression-style code is modelled as functions. The hash functions (MD5, SHA-1), UTF-8 encoding, URL encoding, date text formatting and the XML text parser are function parameters. The laws the proofs need from them are stated as preconditions of the lemmas that use them.

## Model

| member | source | states |
|---|---|---|
| Util.GetText | Utils/Util.cs:22-25 | with no argument the format comes back as is; otherwise it is what string.Format makes of format and arguments |
| Util.Count | Utils/Util.cs:54-64 | the loop counts exactly the elements the enumerator yields; null throws NullReference |
| Util.IsEmpty | Utils/Util.cs:39-48 | true exactly for null, for "", and for an enumerable value that yields no element |
| Util.IsNotEmpty | Utils/Util.cs:33-36 | the negation of IsEmpty on every value |
| Util.AsList | Utils/Util.cs:66-72 | a list of at most one element: empty exactly for null, else the value itself |
| Util.Assert | Utils/Util.cs:79-83 | throws an exception carrying failInfo exactly when the condition is false |
| Util.IIF | Utils/Util.cs:87-93 | the true value exactly when the condition holds of o, else the false value |
| Ordering.Insert | Wechat.cs:196 | inserting into a key-ordered list keeps the multiset (the new element plus the old ones) |
| Ordering.SortBy | Wechat.cs:196 | OrderBy by key returns a permutation of its input |
| Ordering.InsertSorted | Wechat.cs:196 | inserting into a sorted sequence keeps it sorted by key |
| Ordering.SortBySorted | Wechat.cs:196 | OrderBy's result is sorted by key under the comparer |
| Ordering.SortedUnique | Wechat.cs:196 | two key-sorted arrangements of the same elements are equal when keys determine elements and the comparer is a total order |
| Ordering.SortByCanonical | Wechat.cs:196 | OrderBy gives the same sequence for any enumeration order of the same entries |
| Wechat.Kept | Wechat.cs:200-204 | the entries that take part in the signature, in order; none has an empty value |
| Wechat.KeptMembers | Wechat.cs:200-204 | a pair is kept exactly when its entry's value is neither null nor "" |
| Wechat.NotEmptyIsSigned | Wechat.cs:202 | IsNotEmpty of the boxed string value is exactly "neither null nor empty" |
| Wechat.BuildSortQueryString | Wechat.cs:193-206 | the loop over the ordered entries appends `key=value&` for each signed entry, then trims trailing '&': the result is SortQuery |
| Wechat.SortQueryCanonical | Wechat.cs:193-206 | the query string does not depend on the dictionary's enumeration order when the comparer is a total order |
| Wechat.SortQueryPairs | Wechat.cs:193-206 | the query string is the signed entries' `key=value` pairs in key order joined by '&', with trailing '&' cut |
| Wechat.SortQueryIsQueryText | Wechat.cs:193-206 | when the last signed value does not end in '&' the trim removes only the final separator |
| Wechat.TrailingAmpersandCut | Wechat.cs:205 | TrimEnd('&') also eats an '&' that belongs to the last value: {"a": "x&"} gives "a=x" |
| Wechat.KeptInsertUnsigned | Wechat.cs:196-204 | an entry with a null or empty value leaves the kept pairs unchanged wherever OrderBy puts it |
| Wechat.SortQueryIgnoresUnsigned | Wechat.cs:193-206 | adding an entry with a null or empty value does not change the query string |
| Wechat.SortQueryAllUnsigned | Wechat.cs:193-206 | an empty dictionary, or one whose values are all null or "", gives "" |
| Wechat.HexLower | Wechat.cs:183-187 | "{0:x2}" of each hash byte: two characters per byte |
| Wechat.HexLowerReads | Wechat.cs:183-187 | the hex text holds only digits and a-f, and each pair reads back as its byte |
| Wechat.LowerOfHexLower | Wechat.cs:188 | the final ToLower leaves the hex text unchanged |
| Wechat.CalcPushMessageSign | Wechat.cs:177-189 | sorts token, timestamp and nonce, joins them, hashes the UTF-8 bytes and appends each hash byte as lower-case hex: the result is PushSign |
| Wechat.PushSignSymmetric | Wechat.cs:179 | any permutation of the three arguments gives the same signature |
| Wechat.AddTicks | Wechat.cs:29 | AddSeconds/AddMinutes: the sum, or an ArgumentOutOfRange error outside the DateTime range |
| Wechat.ExpireTicks | Wechat.cs:29 | the expiry is expires_in seconds after the fetch less ten minutes; out of range throws ArgumentOutOfRange |
| Wechat.GetAccessTokenReply.CalcExpireDt | Wechat.cs:26-30 | FetchDt is set first; ExpireDt becomes the expiry, or stays unchanged when the expiry throws |
| Wechat.TMessage.constructor | Wechat.cs:86-102 | every item holds its argument (default "") in the default colour #173177 |
| WechatPay.BuildPaySign | Pay/WechatPay.cs:176-180 | the MD5 text of the sorted query string + "&key=" + merchant key, upper-cased: PaySign |
| WechatPay.PaySignUpper | Pay/WechatPay.cs:179 | the signature holds no lower-case letter and has the hash text's length |
| WechatPay.UnsignedDictPreimage | Pay/WechatPay.cs:178 | a dictionary with no signed entry hashes "&key=" + merchant key alone |
| WechatPay.PaySignCanonical | Pay/WechatPay.cs:176-180 | the pay signature depends on the dictionary's contents, not its enumeration order |
| WechatPay.PaySignIgnoresUnsigned | Pay/WechatPay.cs:176-180 | entries with a null or empty value do not change the pay signature |
| WechatPay.HeldSign | Pay/WechatPay.cs:194-198 | the value of the last `sign` child, "" when there is none |
| WechatPay.Unsigned | Pay/WechatPay.cs:190-200 | the children other than `sign`, in document order, as dictionary entries |
| WechatPay.DuplicateStays | Pay/WechatPay.cs:199 | once a name repeats, every longer document has a repeated name too |
| WechatPay.CheckPaySign | Pay/WechatPay.cs:183-203 | the loop holds `sign`, adds every other child (a repeated name throws DuplicateKey) and compares: the result is CheckResult |
| WechatPay.MissingSignComparesEmpty | Pay/WechatPay.cs:188-202 | a document without `sign` is compared against "" |
| WechatPay.DuplicateNameFails | Pay/WechatPay.cs:199 | two children other than `sign` with the same name make the check throw |
| WechatPay.SignedReplyVerifies | Pay/WechatPay.cs:183-203 | a reply whose `sign` child carries the pay signature of its other children, in any order, passes |
| WechatPay.UnifiedOrderDict | Pay/WechatPay.cs:113-126 | the ten fields in their order, then `sign` holding the pay signature of those ten |
| WechatPay.OrderFieldsNames | Pay/WechatPay.cs:115-124 | the ten field names are distinct and none is `sign` |
| WechatPay.AsChildren | Pay/WechatPay.cs:129 | the dictionary written as XML is read back as one child per entry |
| WechatPay.AsChildrenUnsigned | Pay/WechatPay.cs:183-203 | children without `sign` read back as the same entries and hold no signature |
| WechatPay.ReadBack | Pay/WechatPay.cs:183-203 | entries followed by `sign` read back as those entries and that signature |
| WechatPay.SignedDictChecks | Pay/WechatPay.cs:125-126 | signing a dictionary and then adding `sign` makes a document the check accepts |
| WechatPay.UnifiedOrderChecks | Pay/WechatPay.cs:113-129 | the unified-order request with every field non-null passes the receiver's check |
| WechatPay.NonceAlwaysEmpty | Pay/WechatPay.cs:139-142 | as written, SubText(32) of the 32-digit GUID text is always "" |
| WechatPay.NonceIsGuid | Pay/WechatPay.cs:139-142 | the intended SubText(0, 32) returns the whole 32-digit GUID text |
| WechatPay.IsSuccess | Pay/WechatPay.cs:39 | true exactly when the return code is "SUCCESS" (null is not) |
| StringHelper.SubText | Utils/StringHelper.cs:356-367 | "" for empty text or a start at or past the end; the whole suffix for length -1 or a length running past the end; else exactly `length` characters; an ArgumentOutOfRange error exactly for a negative start or a length below -1 that stays within the text, and also when start + length overflows Int32 |
| StringHelper.SubTextOverflow | Utils/StringHelper.cs:356-367 | SubText("abc", 1, Int32.MaxValue) throws because the sum wraps negative, while a length merely past the end gives the suffix |
| StringHelper.Summary | Utils/StringHelper.cs:386-392 | the text when shorter than n, else its first n characters and "...." (also when the length equals n); a negative n on non-empty text is an error |
| StringHelper.TrimEnd | Utils/StringHelper.cs:56-69 | "" for empty input; the input when the key is absent; else the text before (or through) the LAST occurrence of the key |
| StringHelper.TrimStart | Utils/StringHelper.cs:75-88 | "" for empty input; the input when the key is absent; else the text after (or from) the FIRST occurrence of the key |
| StringHelper.GetEnd | Utils/StringHelper.cs:92-105 | "" for empty input; the input when the key is absent; else the text after (or from) the LAST occurrence of the key |
| StringHelper.GetStart | Utils/StringHelper.cs:110-123 | "" for empty input; the input when the key is absent; else the text before (or through) the FIRST occurrence of the key |
| StringHelper.TrimEndGetEnd | Utils/StringHelper.cs:56-105 | TrimEnd and GetEnd(keepKey) split the text at the last occurrence: their concatenation is the text |
| StringHelper.GetStartTrimStart | Utils/StringHelper.cs:75-123 | GetStart and TrimStart(keepKey) split the text at the first occurrence |
| StringHelper.TrimEndIsLastCut | Utils/StringHelper.cs:56-105 | keepKey adds exactly the key, and the part after the cut holds no further copy of the key |
| StringHelper.ToLowCamel | Utils/StringHelper.cs:395-400 | lower-cases every character, not only the first |
| StringHelper.ToHighCamel | Utils/StringHelper.cs:403-408 | upper-cases the first character and lower-cases all the others |
| StringHelper.EscapeTextSnoc | Utils/StringHelper.cs:263-284 | escaping one more character appends that character's escaped form |
| StringHelper.Escape | Utils/StringHelper.cs:263-284 | the buffer loop inserts '\\' before each listed character: the result is EscapeText, at most twice as long |
| StringHelper.UnescapeEscape | Utils/StringHelper.cs:263-307 | Unescape undoes Escape whenever a backslash in the text is itself escaped (or there is none) |
| StringHelper.UnescapeDropsLoneBackslash | Utils/StringHelper.cs:288-307 | a backslash that is not itself escaped is dropped, so "a\\b" and "ab" unescape alike |
| StringHelper.Unescape | Utils/StringHelper.cs:288-307 | the scan drops every escaping backslash and keeps the character after it: the result is UnescapeText |
| StringHelper.Quote | Utils/StringHelper.cs:175-193 | text already starting and ending with '"' comes back as is; otherwise it is wrapped in quotes with '\\' and '"' escaped |
| StringHelper.UnquoteQuote | Utils/StringHelper.cs:175-260 | Unquote inverts Quote on every text that is not already quoted |
| StringHelper.UnquoteLoneQuote | Utils/StringHelper.cs:196-260 | a lone '"' unquotes to "" |
| StringHelper.LeadingBlanks | Utils/StringHelper.cs:202-209 | where the first trimming loop stops: every character before it is blank, the one at it is not |
| StringHelper.TrimmedEnd | Utils/StringHelper.cs:210-217 | where the second trimming loop stops; it never inspects index 0 |
| StringHelper.BlankBounds | Utils/StringHelper.cs:198-217 | the two trimming loops compute LeadingBlanks and TrimmedEnd |
| StringHelper.Unquote | Utils/StringHelper.cs:196-260 | trims blanks, strips one outer quote at each end and drops escape backslashes: the result is UnquoteText |
| StringHelper.Repeated | Utils/StringHelper.cs:345-351 | c written n times has n times c's length |
| StringHelper.Repeat | Utils/StringHelper.cs:345-351 | a non-positive count gives ""; otherwise c repeated n times |
| StringHelper.TerminatedIsJoin | Utils/StringHelper.cs:141-143 | appending item + separator for each item gives the join plus one trailing separator |
| StringHelper.SeparatedTextIsJoin | Utils/StringHelper.cs:137-145 | with a non-empty separator the final TrimEnd removes exactly the trailing separator |
| StringHelper.ToSeparatedString | Utils/StringHelper.cs:137-145 | null gives ""; the loop and the final cut give the items joined by the separator |
| ConvertorParse.ParseIntegral | Utils/Convertor.Parse.cs:223-268 | the integer TryParse wrappers give the parsed number exactly when the text (sign, digits, surrounding white space, then only trailing '\0' characters) is an integer within the target type's range, and null otherwise |
| ConvertorParse.ParseBool | Utils/Convertor.Parse.cs:271-276 | bool.TryParse succeeds exactly on "True"/"False" in any case once white space and '\0' are trimmed from both ends, and yields true exactly for "True" |
| ConvertorParse.TrimWhiteSpaceAndNull | Utils/Convertor.Parse.cs:271-276 | the trimmed text is no longer, starts and ends with neither white space nor '\0', and text already so bounded is unchanged |
| ConvertorParse.ParseBoolOfNullTerminated | Utils/Convertor.Parse.cs:271-276 | "True\0" parses as true |
| ConvertorParse.ParseBoolOfPadded | Utils/Convertor.Parse.cs:271-276 | " False\0" parses as false |
| ConvertorParse.ParseEnum | Utils/Convertor.Parse.cs:150-160 | empty text is null; any non-null result is the Int32 value Enum.Parse (ignoreCase) gives for the text: a number, or the OR of the comma-separated names |
| ConvertorParse.ParseEnumValue | Utils/Convertor.Parse.cs:150-160 | Enum.Parse: a result only for text that is not blank, and always within Int32 |
| ConvertorParse.ParseEnumByNames | Utils/Convertor.Parse.cs:150-160 | trimmed text not starting with a digit, '-' or '+' is read as a list of names |
| ConvertorParse.ParseEnumOfNumeral | Utils/Convertor.Parse.cs:150-160 | trimmed text starting with a digit, '-' or '+' that parses as an integer gives that integer when it fits Int32 and fails on overflow |
| ConvertorParse.ParseEnumOfNameList | Utils/Convertor.Parse.cs:150-160 | a comma-joined list of member names parses to the OR of their values as 32-bit patterns, read back as an Int32 |
| ConvertorParse.ParseEnumOfRepeatedName | Utils/Convertor.Parse.cs:150-160 | a name repeated in the list ("Read,Read") gives the member's value once |
| ConvertorParse.ParseTyped | Utils/Convertor.Parse.cs:96-109 | the Nullable<T> branch: a non-null result has exactly the type T |
| ConvertorParse.ParseBasicType | Utils/Convertor.Parse.cs:87-145 | the only failure is the `.Value` of a null parse (InvalidOperationException); enum text is read as Enum.Parse reads it, comma lists included |
| ConvertorParse.ParseEnums | Utils/Convertor.Parse.cs:174-188 | empty text gives []; otherwise the result is the parsed values of the non-empty pieces of the split, in order, skipping those that do not parse |
| ConvertorParse.ParseItems | Utils/Convertor.Parse.cs:180-185 | the foreach keeps exactly the items that parse, in order |
| ConvertorParse.ParsedEnumsOfParsed | Utils/Convertor.Parse.cs:180-185 | items that all parse are all kept, in order |
| ConvertorParse.BasicTypes | Utils/Convertor.Parse.cs:37-55 | IsBasicType looks through Nullable<T>; every number is basic; decimal is basic but not simple |
| ConvertorParse.ParseIntegralOfText | Utils/Convertor.Parse.cs:223-268 | the decimal text of an integer reads back as that integer exactly when it is in range |
| ConvertorParse.ParseBoolOfText | Utils/Convertor.Parse.cs:271-276 | Boolean.ToString() text reads back as the boolean |
| ConvertorParse.NumberedEnumWellFormed | Utils/Convertor.Parse.cs:150-160 | an enum with implicit values 0, 1, ... and identifier names pairwise distinct ignoring case is well formed |
| ConvertorParse.ParseEnumOfName | Utils/Convertor.Parse.cs:150-160 | a member's name parses to that member's value |
| ConvertorParse.ParseEnumIgnoresCase | Utils/Convertor.Parse.cs:150-160 | the name in any ASCII case parses to the member (ignoreCase: true) |
| ConvertorParse.ParseEnumUnknown | Utils/Convertor.Parse.cs:150-160 | an identifier that matches no member's name is caught and gives null |
| ConvertorParse.ParseEnumOfNumber | Utils/Convertor.Parse.cs:150-160 | the decimal text of any integer parses as that number when it fits Int32, whether or not a member has the value, and fails when it overflows |
| ConvertorParse.EnumTextRoundTrip | Utils/Convertor.Parse.cs:150-160 | enum text written as a name or as a number reads back as the value |
| ConvertorParse.ParseEnumNull | Utils/Convertor.Parse.cs:150-160 | null exactly for empty text or text Enum.Parse rejects (a piece of a comma list that names no member, or a number out of the Int32 range) |
| ConvertorParse.ParseEnumsOfNames | Utils/Convertor.Parse.cs:174-188 | a list of member names reads back as their values, in order |
| ConvertorParse.ParseStringIsIdentity | Utils/Convertor.Parse.cs:89-90 | a string target returns the text unchanged |
| ConvertorParse.ParseNullable | Utils/Convertor.Parse.cs:93-109 | Nullable<T>: empty text is null, other text is T's TryParse result |
| ConvertorParse.ParseEmptyDefaults | Utils/Convertor.Parse.cs:113-127 | empty text for a non-nullable type: an Int32 zero for numbers, true for bool, the default date, the enum's zero |
| ConvertorParse.ParseEnumZero | Utils/Convertor.Parse.cs:126 | "0" is the enum's zero whether or not a member has it |
| ConvertorParse.ParseFailure | Utils/Convertor.Parse.cs:130-141 | unparseable text for a non-nullable type throws, except for enums, which give null |
| ConvertorParse.ParseOtherIsText | Utils/Convertor.Parse.cs:144 | a type that is not basic gets the raw text back |
| ConvertorParse.ParseIntegerText | Utils/Convertor.Parse.cs:130-135 | an integer's text parses for an integer type when in range, and throws otherwise |
| DateTimeHelper.DayOfWeek | Utils/DateTimeHelper.cs:71 | DayOfWeek is a number from 0 (Sunday) to 6 |
| DateTimeHelper.AddDays | Utils/DateTimeHelper.cs:70 | AddDays succeeds exactly when the result is within the DateTime range and then moves by whole days; otherwise ArgumentOutOfRange |
| DateTimeHelper.AddDaysDayOfWeek | Utils/DateTimeHelper.cs:70-71 | moving by whole days moves the day number by the same amount and the day of week by it modulo 7 |
| DateTimeHelper.TrimDay | Utils/DateTimeHelper.cs:52-55 | the same date at midnight: same day, no time of day, at most the input and less than a day before it |
| DateTimeHelper.SpanDays | Utils/DateTimeHelper.cs:67 | TimeSpan.Days is the whole number of days, truncated toward zero |
| DateTimeHelper.ArrangeDaysTimes | Utils/DateTimeHelper.cs:81-92 | scans `times` days from the start (nothing when times <= 0) and returns the listed weekdays |
| DateTimeHelper.ArrangeDaysUntil | Utils/DateTimeHelper.cs:64-76 | scans the whole days between the two dates (nothing when the end is earlier) and returns the listed weekdays; it never throws, since every scanned day lies before the end date |
| DateTimeHelper.DayBeforeEnd | Utils/DateTimeHelper.cs:67-70 | each day `startDay.AddDays(i)` with `i` below the whole days to the end date lies within the range and before the end date |
| DateTimeHelper.ArrangedErrorStays | Utils/DateTimeHelper.cs:70 | once AddDays throws, every longer scan throws the same way |
| DateTimeHelper.ArrangedDays | Utils/DateTimeHelper.cs:64-92 | within range, a date is arranged exactly when it is start + i days, i < count, on a listed weekday |
| DateTimeHelper.ArrangedAscending | Utils/DateTimeHelper.cs:64-92 | arranged dates are strictly ascending and inside the scanned window |
| DateTimeHelper.GetWeekdayDt | Utils/DateTimeHelper.cs:100-104 | AddDays(weekday - DayOfWeek): succeeds exactly when that day is within the DateTime range (else ArgumentOutOfRange), and then falls on the requested weekday, in the same Sunday-based week, at the same time of day |
| DateTimeHelper.GetWeekdayDtInRange | Utils/DateTimeHelper.cs:100-104 | a date at least six days from either end of the range always finds the day, moved by weekday - DayOfWeek whole days |
| DateTimeHelper.GetWeekdayDtPastEnd | Utils/DateTimeHelper.cs:100-104 | DateTime.MaxValue is a Friday, and asking for the Saturday of its week throws ArgumentOutOfRange |
| DateTimeHelper.GetWeekday | Utils/DateTimeHelper.cs:107-120 | the Chinese name is the UI title of the WeekDay member for the date's day of week |
| DateTimeHelper.WeekDayOf | Utils/DateTimeHelper.cs:12-21 | the WeekDay member with a given DayOfWeek number has that number |
| DateTimeHelper.WeekDayValueInjective | Utils/DateTimeHelper.cs:12-21 | WeekDay's values are a bijection onto 0..6 |
| DateTimeHelper.FirstDayIsMonday | Utils/DateTimeHelper.cs:12-21 | DateTime's day zero (0001-01-01) is a Monday |
| ListHelper.FirstMatch | Utils/ListHelper.cs:28-41 | the first key, in enumeration order, that matches (ordinal or ignoring case) and no earlier one |
| ListHelper.GetItem | Utils/ListHelper.cs:26-43 | the value of the first matching key, else default(T) |
| ListHelper.GetItemOrdinalIsLookup | Utils/ListHelper.cs:35-39 | with the ordinal comparison and distinct keys GetItem finds the entry whose key equals the key |
| ListHelper.FirstSatisfying | Utils/ListHelper.cs:58-64 | the first index whose element satisfies the condition, and none before it |
| ListHelper.IndexOf | Utils/ListHelper.cs:55-66 | the first matching index; with no match the last index (count - 1) |
| ListHelper.IndexOfAmbiguous | Utils/ListHelper.cs:55-66 | "no match" and "the last element matches" give the same index |
| ListHelper.UnionOf | Utils/ListHelper.cs:68-77 | list1 is kept as a prefix and at most |list2| elements are added |
| ListHelper.Union | Utils/ListHelper.cs:68-77 | the loop builds UnionOf |
| ListHelper.UnionMembers | Utils/ListHelper.cs:68-77 | the union holds exactly the elements of either list |
| ListHelper.UnionNoDuplicates | Utils/ListHelper.cs:68-77 | a union of a duplicate-free list has no duplicates |
| ListHelper.Filter | Utils/ListHelper.cs:80-91 | the kept elements all satisfy the predicate and are no more than the source |
| ListHelper.Search | Utils/ListHelper.cs:80-91 | a null source gives []; otherwise the satisfying elements in order |
| ListHelper.FilterMembers | Utils/ListHelper.cs:80-91 | an element is kept exactly when it is in the source and satisfies the predicate |
| ListHelper.FilterAll | Utils/ListHelper.cs:80-91 | when every element satisfies the predicate the source is kept whole |
| ListHelper.Each | Utils/ListHelper.cs:94-105 | the result is the source itself (null gives []) |
| ListHelper.Each2 | Utils/ListHelper.cs:110-124 | the result is the source; the action is called once per element with its predecessor, default(T) for the first |
| ListHelper.Cast | Utils/ListHelper.cs:153-160 | a null source gives []; otherwise the element-wise conversion |
| EncryptHelper.XorBits | Utils/EncryptHelper.cs:74 | the exclusive or of n-bit values is an n-bit value |
| EncryptHelper.XorBitsTwice | Utils/EncryptHelper.cs:74 | xor with the same operand twice is the identity |
| EncryptHelper.XorBytes | Utils/EncryptHelper.cs:68-78 | the output has the source's length |
| EncryptHelper.Xor | Utils/EncryptHelper.cs:68-78 | an empty key with a non-empty source divides by zero; otherwise the cyclic-key xor of the source |
| EncryptHelper.XorBytesAt | Utils/EncryptHelper.cs:72-75 | byte i is the source byte xor the key byte at i mod the key length |
| EncryptHelper.XorInvolution | Utils/EncryptHelper.cs:68-78 | applying XOR twice with the same key gives the source back |
| Types.GetNullableDataType | Utils/Reflector.Type.cs:312-318 | T for Nullable<T>, otherwise the type itself |
| Types.GetRealType | Utils/Reflector.Type.cs:123-128 | the result is never nullable; a non-nullable type is returned as is; Nullable<T> recurses into T |
| Types.GetGenericDataType | Utils/Reflector.Type.cs:320-326 | the first generic argument of a generic type, otherwise the type itself |
| Types.Properties | Utils/Xmlizer.cs:334-335 | an anonymous type lists its own properties in order; a class unknown to the schema has none |
| Types.RealTypeFacts | Utils/Reflector.Type.cs:123-128 | IsNullable holds exactly for Nullable<T>, and GetRealType is idempotent |
| Types.GenericCollections | Utils/Reflector.Type.cs:238-270 | a generic list or dictionary is exactly List<T> or Dictionary<K, V>; arrays and ArrayList are lists but not generic lists |
| Types.DecimalIsNumberNotSimple | Utils/Reflector.Type.cs:284-303 | decimal is a number but not a simple type |
| Types.ShortNameOfSystemType | Utils/Reflector.Type.cs:152-154 | a non-generic mscorlib type's short name is its full name |
| Types.ShortNameOneArg | Utils/Reflector.Type.cs:145-151 | one generic argument: `ns.Name[[arg]]` with the argument's own short name |
| Types.ShortNameTwoArgs | Utils/Reflector.Type.cs:145-151 | two generic arguments: `ns.Name[[a],[b]]` |
| Types.ShortNameOfInt32 | Utils/Reflector.Type.cs:137 | int is `System.Int32` |
| Types.ShortNameOfNullableInt32 | Utils/Reflector.Type.cs:138 | int? is ``System.Nullable`1[[System.Int32]]`` |
| Types.ShortNameOfStringIntDictionary | Utils/Reflector.Type.cs:141 | Dictionary<string, int> lists both arguments in brackets |
| Types.ShortNameOfUserType | Utils/Reflector.Type.cs:140 | a type from another assembly carries `, Assembly` after its full name |
| Types.TrimArity | Utils/Reflector.Type.cs:172 | TrimEnd("`") cuts a generic definition name with a one-digit arity back to the bare name |
| Types.TypeStringOneArg | Utils/Reflector.Type.cs:168-174 | one generic argument renders as `Name<arg>`, the argument by its short type string |
| Types.TypeStringTwoArgs | Utils/Reflector.Type.cs:168-174 | two arguments render as `Name<a, b>` |
| Types.TypeStringOfNullableInt32 | Utils/Reflector.Type.cs:163-167 | int? renders as `Int32?` |
| Types.TypeStringOfIntList | Utils/Reflector.Type.cs:168-174 | List<int> renders as `List<Int32>` |
| Types.TypeStringOfStringIntDictionary | Utils/Reflector.Type.cs:168-174 | Dictionary<string, int> renders as `Dictionary<String, Int32>` |
| Types.TypeStringFullName | Utils/Reflector.Type.cs:171-174 | with full names the definition keeps its namespace but the arguments stay short |
| Values.DefaultValue | Utils/Xmlizer.cs:343 | default(T) is null exactly for reference types and Nullable<T>, and otherwise a value of type T |
| Values.ConvertForSet | Utils/Xmlizer.cs:343 | SetValue: null stores default(T), an assignable value is stored as is, and every failure is an ArgumentException |
| Values.ConvertForAdd | Utils/Xmlizer.cs:357 | IList.Add: accepted exactly when null fits the element type or the value is assignable, and then stored unchanged |
| Values.MemberWithValue | Utils/Xmlizer.cs:200 | the first member with the value, or none when no member has it |
| Values.EnumName | Utils/Xmlizer.cs:200 | Enum.ToString of an enum without [Flags]: a value some member has is written as the name of a member with that value; any other value as its number |
| Values.FormatValueOfNumbers | Utils/Xmlizer.cs:214 | "{0}" of an integer is its decimal numeral, which reads back as the integer |
| Encoder.QueryPairs | Utils/Convertor.Encoder.cs:188 | one unencoded `key=value` pair per entry, in order |
| Encoder.ToQueryString | Utils/Convertor.Encoder.cs:179-193 | a null or empty dictionary gives ""; otherwise the pairs joined by `&`, with no `&` after the last |
| Encoder.QueryTextSplits | Utils/Convertor.Encoder.cs:179-193 | when keys hold no `=` or `&` and values no `&`, splitting at `&` gives one piece per entry, whose text before the first `=` is the key |
| Encoder.QueryPairReads | Utils/Convertor.Encoder.cs:188 | a pair holds `&` only if a part does, and splits at its first `=` into key and value |
| Encoder.HexText | Utils/Convertor.Encoder.cs:238-250 | two characters per byte (three with spaces); without spaces every character is a hexadecimal digit |
| Encoder.ToHexString | Utils/Convertor.Encoder.cs:238-250 | null or empty input gives ""; otherwise each byte as "{0:X2}", followed by a space when asked |
| Encoder.HexTextAt | Utils/Convertor.Encoder.cs:245-247 | byte i's two upper-case digits sit at offset 2i (3i with spaces) |
| Encoder.ParseHexByte | Utils/Convertor.Encoder.cs:271 | byte.Parse with HexNumber, after trimming trailing '\0' and then white space: a format error exactly when the rest is empty or holds a non-hexadecimal character, success exactly when its value is at most 255 and then that value, otherwise an overflow |
| Encoder.ParseHexByteOfNullTerminated | Utils/Convertor.Encoder.cs:271 | "1\0" reads as 1, while white space after the '\0' is a format error |
| Encoder.ParseIntByte | Utils/Convertor.Encoder.cs:261 | `(byte)int.Parse` fails with a format error exactly on text that is not an integer (trailing '\0' characters are accepted), with an overflow exactly outside Int32, and otherwise keeps the value modulo 256 |
| Encoder.ParseAll | Utils/Convertor.Encoder.cs:256-274 | every token parses exactly when the result is Ok, and then the bytes are the tokens' values in order |
| Encoder.ParseAllErrStays | Utils/Convertor.Encoder.cs:256-274 | the first failing token decides the exception |
| Encoder.ParseAllOkSnoc | Utils/Convertor.Encoder.cs:256-274 | a parsed list extended by a parsing token gives the extended bytes |
| Encoder.HexPairs | Utils/Convertor.Encoder.cs:266-271 | |text|/2 two-character slices, slice i starting at 2i; an odd last character is ignored |
| Encoder.SpaceTokens | Utils/Convertor.Encoder.cs:258 | Split always gives at least one token |
| Encoder.HexBytes | Utils/Convertor.Encoder.cs:254-275 | with a space the trimmed tokens are read by `(byte)int.Parse`; without, the character pairs by the hexadecimal byte parse |
| Encoder.ParseTokens | Utils/Convertor.Encoder.cs:259-261 | the loop parses the tokens in order, stopping at the first failure |
| Encoder.ToHexBytes | Utils/Convertor.Encoder.cs:254-275 | the method computes HexBytes |
| Encoder.ReadHexPairs | Utils/Convertor.Encoder.cs:264-274 | the no-space branch parses the pairs in order |
| Encoder.SlicePairs | Utils/Convertor.Encoder.cs:266-270 | SubText(i*2, 2) for i below |text|/2 gives exactly the pairs |
| Encoder.SubTextPair | Utils/Convertor.Encoder.cs:270 | SubText(i*2, 2) is pair i |
| Encoder.ParseHexByteUpper | Utils/Convertor.Encoder.cs:271 | "{0:X2}" reads back as its byte |
| Encoder.HexBytesOfHexText | Utils/Convertor.Encoder.cs:238-275 | ToHexBytes undoes ToHexString without spaces |
| Encoder.HexPairsParse | Utils/Convertor.Encoder.cs:264-274 | the pairs of the hexadecimal text parse back to the bytes |
| Encoder.HexBytesIgnoresOddLast | Utils/Convertor.Encoder.cs:266 | an unpaired final character makes no difference |
| Encoder.HexTextSpaced | Utils/Convertor.Encoder.cs:245-247 | the spaced text is the pairs joined by spaces plus a final space |
| Encoder.HexBytesFixed | Utils/Convertor.Encoder.cs:252-253 | the documented reader ("86fb26" or "86 fb 26") agrees with ToHexBytes on text without spaces |
| Encoder.HexBytesFixedRoundTrip | Utils/Convertor.Encoder.cs:238-275 | the documented reader undoes ToHexString in both forms |
| Encoder.SpacedTokens | Utils/Convertor.Encoder.cs:258 | the tokens of the spaced text are the bytes' digit pairs |
| Encoder.SpacedTrim | Utils/Convertor.Encoder.cs:258 | trimming the spaced text leaves the pairs joined by spaces |
| Encoder.PiecesParse | Utils/Convertor.Encoder.cs:271 | the digit pairs parse back to the bytes |
| Encoder.HexBytesSpacedMisreads | Utils/Convertor.Encoder.cs:256-262 | the spaced text of bytes holding a byte of 10 or more does not read back as written, and does with the documented reader |
| Encoder.SpacedReadsTokens | Utils/Convertor.Encoder.cs:256-262 | as written, the spaced branch reads the digit pairs with `(byte)int.Parse` |
| Encoder.TokenMisread | Utils/Convertor.Encoder.cs:261 | a pair of decimal digits is read as a decimal number, a pair with a letter is a format error, and no byte from 10 up is read back |
| Encoder.TwoDigits | Utils/Convertor.Encoder.cs:261 | two decimal digits read as their decimal value |
| Encoder.ToBinary | Utils/Convertor.Encoder.cs:299 | Convert.ToString(v, 2) is a non-empty string of binary digits |
| Encoder.PadLeft | Utils/Convertor.Encoder.cs:299 | PadLeft keeps the text at the end and fills the front with the pad character up to the width |
| Encoder.ParseToBinary | Utils/Convertor.Encoder.cs:299 | the binary numeral reads back as the value |
| Encoder.ToBinaryLength | Utils/Convertor.Encoder.cs:299 | a byte needs at most eight binary digits |
| Encoder.ParseBinaryLeadingZeros | Utils/Convertor.Encoder.cs:299 | zero padding does not change the value |
| Encoder.BitsOf | Utils/Convertor.Encoder.cs:299 | each byte is written as exactly eight binary digits |
| Encoder.BitsOfParses | Utils/Convertor.Encoder.cs:299 | the eight digits read back as the byte |
| Encoder.BitGroups | Utils/Convertor.Encoder.cs:293-303 | nine characters per byte |
| Encoder.BitText | Utils/Convertor.Encoder.cs:293-303 | nine characters per byte in either order |
| Encoder.ToBitString | Utils/Convertor.Encoder.cs:293-303 | the loop writes each byte, forwards when `order` is set and backwards otherwise, as eight digits and a space |
| Encoder.BitGroupsAt | Utils/Convertor.Encoder.cs:299-300 | group i is byte i's eight digits and a space |
| Encoder.BitTextReads | Utils/Convertor.Encoder.cs:298-300 | group i holds byte i when `order` is set and byte n-1-i otherwise |
| Encoder.Reversed | Utils/Convertor.Encoder.cs:316-325 | the same length, element i taken from n-1-i |
| Encoder.ReverseBytes | Utils/Convertor.Encoder.cs:316-325 | null gives null; otherwise the bytes in reverse order |
| Encoder.ReversedInvolution | Utils/Convertor.Encoder.cs:316-325 | reversing twice restores the bytes |
| Encoder.ReversedEnds | Utils/Convertor.Encoder.cs:323-324 | the first byte goes to the end and the last to the front |
| Encoder.EscapeUnit | Utils/Convertor.Encoder.cs:338-345 | a unit above 256 becomes `\u` and its unpadded lower-case hexadecimal value; any other is kept as the character |
| Encoder.Hex4 | Utils/Convertor.Encoder.cs:352-355 | four hexadecimal digits, the width the decoder reads |
| Encoder.EscapedSnoc | Utils/Convertor.Encoder.cs:336-346 | the escaped text grows by one unit's piece per step |
| Encoder.UnicodeEncode | Utils/Convertor.Encoder.cs:331-349 | null or empty text gives ""; otherwise the concatenation of each UTF-16 unit's piece |
| Encoder.ParseHexDigits4 | Utils/Convertor.Encoder.cs:352-355 | four hexadecimal digits give their positional value |
| Encoder.Hex4Parses | Utils/Convertor.Encoder.cs:352-355 | the four padded digits read back as the unit |
| Encoder.DecodeEscapeUnit | Utils/Convertor.Encoder.cs:352-355 | a unit's own piece decodes to it and leaves the rest of the text alone |
| Encoder.EscapedRoundTrip | Utils/Convertor.Encoder.cs:331-355 | the reference `\u`-plus-four-digits decoder undoes the padded escapes of a text without backslashes, and the unpadded ones when no unit lies in 257..4095; on such text it agrees with Regex.Unescape |
| Encoder.UnicodeEncodeMisreads | Utils/Convertor.Encoder.cs:339-342 | U+0101 followed by 'a' is written `\u101a`, which decodes as the single unit U+101A |
| IOFile.JoinHead | Utils/IO.File.cs:18-25 | the first part holds no foreign separator and does not end in the separator |
| IOFile.JoinTail | Utils/IO.File.cs:18-25 | the second part holds no foreign separator and does not start with the separator |
| IOFile.CombinePath | Utils/IO.File.cs:18-25 | the combined path holds no '/' |
| IOFile.CombineWebPath | Utils/IO.File.cs:28-35 | the combined web path holds no '\' |
| IOFile.CombineWebPathSeam | Utils/IO.File.cs:28-35 | clean parts are joined by exactly one '/' |
| IOFile.CombineWebPathEmptyFirst | Utils/IO.File.cs:28-35 | a first part of separators only leaves the normalised second part without its leading separators |
| IOFile.CombineWebPathExtraSeparators | Utils/IO.File.cs:28-35 | an extra separator at the seam makes no difference |
| IOFile.CombinePathMirror | Utils/IO.File.cs:18-35 | CombinePath is CombineWebPath with every '/' turned into '\' |
| IOFile.ToRelativePath | Utils/IO.File.cs:39-50 | non-empty exactly when both paths are non-empty and the root is no longer than the path, and then "\" plus the rest after the root |
| IOFile.ToRelativePathOfJoin | Utils/IO.File.cs:39-50 | a path under the root becomes "\" and the rest |
| IOFile.CutAtLast | Utils/IO.File.cs:212-231 | the text is cut before its last occurrence of the character, or kept whole |
| IOFile.TrimQuery | Utils/IO.File.cs:212-220 | the URL cut before its last '?' |
| IOFile.TrimExtension | Utils/IO.File.cs:223-231 | the name cut before its last '.' |
| IOFile.TrimQueryOfQuery | Utils/IO.File.cs:212-220 | a query without '?' is removed exactly |
| IOFile.TrimQueryNone | Utils/IO.File.cs:212-220 | a URL without '?' is kept |
| IOFile.TrimFolder | Utils/IO.File.cs:234-245 | the longest end of the URL that holds no separator |
| IOFile.GetFileName | Utils/IO.File.cs:248-253 | an end of the query-less URL that holds no separator |
| IOFile.GetFileNameOf | Utils/IO.File.cs:248-253 | folder/name?query gives the name |
| IOFile.GetFileFolder | Utils/IO.File.cs:256-268 | the prefix before the last '/', else before the last '\', else "" |
| IOFile.FolderAndName | Utils/IO.File.cs:234-268 | a web path is its folder and its file name joined by '/' |
| IOFile.GetFileExtension | Utils/IO.File.cs:271-284 | a non-empty result starts with its only '.', holds no separator and is the lower-cased end of the query-less name |
| IOFile.ExtensionAfterLastDot | Utils/IO.File.cs:276-283 | the lower-cased text from the last '.', unless it holds a separator |
| IOFile.ExtensionCut | Utils/IO.File.cs:276-283 | every '.' is followed by a separator exactly when the text from the last one holds one |
| IOFile.GetFileExtensionEmpty | Utils/IO.File.cs:271-284 | no extension exactly when every '.' of the query-less name is followed by a separator |
| IOFile.LastDot | Utils/IO.File.cs:276 | the last '.' of name.ext is the one in between |
| IOFile.ExtensionOf | Utils/IO.File.cs:271-284 | name.ext gives "." and the lower-cased extension |
| IOFile.ExtensionIgnoresQuery | Utils/IO.File.cs:271-284 | the query takes no part in the extension |
| IOFile.SplitName | Utils/IO.File.cs:294-299 | the name split at its last '.' into a part and an extension holding one '.' at its start |
| IOFile.SplitNameOf | Utils/IO.File.cs:294-299 | a name and a dot-free extension split back into the two |
| IOFile.TrailingDigits | Utils/IO.File.cs:302-309 | the longest run of ASCII digits at the end |
| IOFile.NumberSuffixAt | Utils/IO.File.cs:302-309 | the match of `_(\d+)$`: a '_' followed only by digits to the end, and none exactly when the name does not end that way |
| Numbers.WrapInt32 | Utils/IO.File.cs:316 | Int32 wrap-around: a value in range congruent to the input modulo 2^32 |
| IOFile.NextNumber | Utils/IO.File.cs:310-318 | the next number is an Int32 |
| IOFile.NextNameFirst | Utils/IO.File.cs:288-328 | a name not yet numbered gets "_2" before its extension |
| IOFile.NextNameNumbered | Utils/IO.File.cs:288-328 | a numbered name gets the next number in place of its own |
| IOFile.NextNumberOf | Utils/IO.File.cs:310-318 | k+1 below Int32.MaxValue, Int32.MinValue right after it, and 2 past the Int32 range |
| IOFile.ParseNumeral | Utils/IO.File.cs:315 | ParseInt of k's numeral is k within the Int32 range and null past it |
| IOFile.NextNameIncrements | Utils/IO.File.cs:288-328 | "a_7.txt" becomes "a_8.txt" |
| IOFile.IsImageFile | Utils/IO.File.cs:331-339 | an image file exactly when the extension is in the image list |
| IOFile.IsImageFileOf | Utils/IO.File.cs:331-339 | an image extension in any case makes an image file |
| IOFile.GetMimeType | Utils/IO.File.cs:342-351 | "" for an empty name, the table's entry for a known extension, and the binary type otherwise |
| IOFile.MimesNotEmpty | Utils/IO.File.cs:358-386 | every table entry is non-empty |
| IOFile.MimeTypeNotEmpty | Utils/IO.File.cs:342-351 | a non-empty name always has a type |
| IOFile.ImageMimes | Utils/IO.File.cs:331-386 | the table maps image extensions to image types, except that it lacks .tif and .tiff |
| IOFile.MimeTypeOfImage | Utils/IO.File.cs:331-386 | an image file has an image type, except a TIFF file |
| JsonConverters.TruncDiv | Utils/JsonConverters.cs:44 | the `(int)` of a quotient rounds toward zero: the floor for non-negative dividends, the ceiling for negative ones |
| JsonConverters.WriteTimestamp | Utils/JsonConverters.cs:41-46 | the whole seconds since 1970-01-01 counted toward 1970, an Int32 for dates within that range |
| JsonConverters.EpochPlus | Utils/JsonConverters.cs:38 | AddSeconds(n) from 1970-01-01 is n seconds of ticks later |
| JsonConverters.ReadTimestamp | Utils/JsonConverters.cs:35-39 | a null token throws NullReference, text that is not an integer a FormatException; a success is the Int32 number of seconds after 1970-01-01 |
| JsonConverters.TimestampRoundTrip | Utils/JsonConverters.cs:35-46 | a date on a whole second within the Int32 range is written and read back unchanged |
| JsonConverters.TimestampTruncates | Utils/JsonConverters.cs:35-46 | any other date in range reads back as the whole second it falls in, counted toward 1970 |
| JsonConverters.TimestampReadWrite | Utils/JsonConverters.cs:35-46 | every Int32 number of seconds is read and written back unchanged |
| JsonConverters.TruncDivExact | Utils/JsonConverters.cs:44 | an exact multiple divides back exactly |
| JsonConverters.CanConvertDisjoint | Utils/JsonConverters.cs:30-33 | TimestampConverter takes exactly DateTime, UnicodeConverter exactly string, and no type goes to both |
| JsonConverters.Utf16LeBytes | Utils/JsonConverters.cs:95 | Encoding.Unicode gives two bytes per code unit |
| JsonConverters.LeBytesAt | Utils/JsonConverters.cs:95-99 | byte 2k is unit k's low byte and byte 2k+1 its high byte, and the escape of unit k is built from them high first |
| JsonConverters.UnitEscape | Utils/JsonConverters.cs:99 | each escape is six characters starting with `\u` |
| JsonConverters.EscapeUnits | Utils/JsonConverters.cs:93-102 | six characters per code unit |
| JsonConverters.ToUnicodeStep | Utils/JsonConverters.cs:97-100 | one turn of the loop appends the escape of the next code unit |
| JsonConverters.ToUnicode | Utils/JsonConverters.cs:93-102 | the result is the escapes of the string's UTF-16 code units, in order |
| JsonConverters.ToUnicodeLength | Utils/JsonConverters.cs:93-102 | six characters per code unit; empty exactly for the empty string |
| JsonConverters.ToUnicodeBasic | Utils/JsonConverters.cs:93-102 | below U+10000 there is one escape per character |
| JsonConverters.GroupValue | Utils/JsonConverters.cs:99 | an escape stands for a 16-bit code unit |
| JsonConverters.GroupValueOfEscape | Utils/JsonConverters.cs:99 | an escape of a high and a low byte reads as high*256 + low |
| JsonConverters.ReadEscapesOfEscapeUnits | Utils/JsonConverters.cs:93-102 | the escapes read back as the code units they were made from |
| JsonConverters.ToUnicodeDecodes | Utils/JsonConverters.cs:90-102 | what WriteJson writes for a string decodes to the string's UTF-16 code units |
| HttpHelper.PartHeaderShape | Utils/HttpHelper.cs:218-235 | every part opens with "--boundary", a line break and its Content-Disposition line; a file part's header ends with a blank line; a text part is the line, a blank line and the value |
| HttpHelper.FileHeaderDefaults | Utils/HttpHelper.cs:221-227 | a file without a name or type is sent under the field's name as application/octet-stream |
| HttpHelper.FileHeaderGiven | Utils/HttpHelper.cs:221-227 | a file with its own name and type sends those |
| HttpHelper.ReadQuoted | Utils/HttpHelper.cs:221 | the text before the first '"', none exactly when there is no '"' |
| HttpHelper.PartHeaderName | Utils/HttpHelper.cs:221-233 | a receiver reads back the field's own name from each part, when the name holds no '"' |
| HttpHelper.PartList | Utils/HttpHelper.cs:212-236 | one part per field, in the dictionary's order |
| HttpHelper.Join | Utils/HttpHelper.cs:214-217 | no parts give nothing and one part is written alone |
| HttpHelper.FormBody | Utils/HttpHelper.cs:207-244 | the body always ends with the close delimiter, and an empty form is the close delimiter alone |
| HttpHelper.BuildMultipartFormData | Utils/HttpHelper.cs:207-244 | the stream receives the parts separated by line breaks (the `flag`), then the close delimiter |
| HttpHelper.JoinSnoc | Utils/HttpHelper.cs:214-217 | one more part adds one separator and the part |
| HttpHelper.JoinAppend | Utils/HttpHelper.cs:214-217 | joining two runs of parts puts one separator between them |
| HttpHelper.FormBodyAppend | Utils/HttpHelper.cs:207-244 | splitting the fields splits the body at one encoded line break |
| HttpHelper.FormBodyOne | Utils/HttpHelper.cs:207-244 | one field gives its part and the close delimiter |
| PushMessages.MessageTypeDesc | OP/PushMessage.cs:44-54 | PushMessageType is an enum type |
| PushMessages.EventTypeDesc | OP/PushMessage.cs:57-67 | PushEventType is an enum type |
| PushMessages.MessageProperties | OP/PushMessage.cs:73-111 | twenty-three public properties, the last CreateDt (DateTime?) without a setter |
| PushMessages.ReadEnumElement | OP/PushMessage.cs:109-110 | an element read for a nullable enum property is ParseEnum of its text, so empty text is null |
| PushMessages.MessageTypeWellFormed | OP/PushMessage.cs:44-54 | PushMessageType's names are identifiers, distinct ignoring case, with distinct values |
| PushMessages.EventTypeWellFormed | OP/PushMessage.cs:57-67 | PushEventType's names are identifiers, distinct ignoring case, with distinct values |
| PushMessages.MsgTypeReads | OP/PushMessage.cs:109 | a MsgType element holding a member's name in any case reads as that member |
| PushMessages.EventReads | OP/PushMessage.cs:110 | an Event element holding a member's name in any case reads as that member |
| PushMessages.TextIsText | OP/PushMessage.cs:46 | "text" reads as the Text member |
| PushMessages.ScanIsScan | OP/PushMessage.cs:61 | "SCAN" reads as the Scan member |
| PushMessages.UnknownTypeIsNull | OP/PushMessage.cs:44-54 | a type the enum lacks ("file") reads as null |
| PushMessages.CreateDtNotRead | OP/PushMessage.cs:111 | CreateDt has no setter, so reading a message never assigns it |
| PushMessages.StrOrNull | OP/PushMessage.cs:73-107 | a string property holds null exactly for a null string |
| PushMessages.StringElement | OP/PushMessage.cs:120-126 | a null string writes nothing, any other one element holding the encoded text |
| PushMessages.FlattenAppend | OP/PushMessage.cs:120-126 | the nodes of consecutive properties concatenate |
| PushMessages.PropertyNodesAre | OP/PushMessage.cs:120-126 | the property loop writes the properties' nodes in order |
| PushMessages.ObjectWrites | OP/PushMessage.cs:120-126 | an object is written as its properties' nodes, in order |
| PushMessages.StringProperty | OP/PushMessage.cs:122-125 | a string property is its element, or nothing when null |
| PushMessages.ObjectProperty | OP/PushMessage.cs:165-168 | a property holding an object is one element around the object's nodes |
| PushMessages.Anonymous | OP/PushMessage.cs:120-126 | `new { ... }` is an object of an anonymous type |
| PushMessages.AnonymousProperties | OP/PushMessage.cs:120-126 | an anonymous object lists its names and declared types, none writable and none ignored |
| PushMessages.StringsObjectWrites | OP/PushMessage.cs:165-168 | an anonymous object of strings writes one element per string that is not null |
| PushMessages.ToXmlOf | OP/PushMessage.cs:126 | ToXml("xml") is the root `xml` around the value's nodes |
| PushMessages.HeaderParts | OP/PushMessage.cs:122-125 | the header's four properties give the header's elements |
| PushMessages.HeaderWrites | OP/PushMessage.cs:122-125 | each header property is written as its part |
| PushMessages.ReplyWrites | OP/PushMessage.cs:118-251 | a reply is the root `xml` around the header (ToUserName the sender, FromUserName the receiver, CreateTime, MsgType) and then its own properties |
| PushMessages.BodyString | OP/PushMessage.cs:152 | a reply's own string property is its element, or nothing when null |
| PushMessages.BodyValue | OP/PushMessage.cs:165-168 | a reply's own non-null object property is one element around its nodes |
| PushMessages.ReplyTransferWrites | OP/PushMessage.cs:118-127 | the transfer reply is the header alone, with MsgType transfer_customer_service |
| PushMessages.StringsReplyWrites | OP/PushMessage.cs:130-154 | a reply of strings is the header and then an element per string that is not null |
| PushMessages.ReplyMiniProgramWrites | OP/PushMessage.cs:130-141 | the header, the Event element, then EventKey with the page path unless null |
| PushMessages.ReplyTextWrites | OP/PushMessage.cs:144-154 | the header, then Content with the text unless null |
| PushMessages.NestedReplyWrites | OP/PushMessage.cs:157-226 | a reply holding one object of strings: the header, then one element around the strings' elements |
| PushMessages.ReplyImageWrites | OP/PushMessage.cs:157-170 | the header, then Image around the MediaId element |
| PushMessages.ReplyVoiceWrites | OP/PushMessage.cs:173-186 | the header, then Voice around the MediaId element |
| PushMessages.ReplyVideoWrites | OP/PushMessage.cs:189-203 | the header, then Video around the MediaId and ThumbMediaId elements |
| PushMessages.ReplyMusicWrites | OP/PushMessage.cs:209-226 | the header, then Music around its five elements |
| PushMessages.ItemProperties | OP/PushMessage.cs:254-259 | `item` lists four writable string properties |
| PushMessages.NewItem | OP/PushMessage.cs:260-266 | the constructor builds an `item` object |
| PushMessages.ArticlesList | OP/PushMessage.cs:232-235 | the list holds one entry per article |
| PushMessages.ItemWrites | OP/PushMessage.cs:254-266 | an article is written as its strings' elements |
| PushMessages.ArticleElements | OP/PushMessage.cs:249 | one element per article |
| PushMessages.ItemClassified | OP/PushMessage.cs:254 | an article is classified under the name `item` |
| PushMessages.ArticlesWritten | OP/PushMessage.cs:249 | every article is an `item`, classified as `item` and written as its strings' elements |
| PushMessages.ArticlesWrite | OP/PushMessage.cs:249 | the list is written as one `item` element per article, in order |
| PushMessages.CountWrites | OP/PushMessage.cs:248 | a count is written as its decimal text |
| PushMessages.NewsCountWrites | OP/PushMessage.cs:248 | ArticleCount holds the number of articles |
| PushMessages.NewsArticlesWrites | OP/PushMessage.cs:249 | Articles holds one `item` element per article |
| PushMessages.ReplyNewsWrites | OP/PushMessage.cs:240-251 | the header, ArticleCount, then Articles around one `item` per article |
| PushMessages.ReplyNewsOneWrites | OP/PushMessage.cs:230-237 | the single-article reply has a count of 1 and one `item` |
| Serialization.EnumFormattingValue | Utils/SerializationNode.cs:40-44 | Text is 0 and Int is 1 |
| Serialization.FromType | Utils/SerializationNode.cs:26-35 | the only failure is IndexOutOfRange, exactly for a non-simple type that looks anonymous and has no generic arguments |
| Serialization.AnonymousTypeIsAnonymous | Utils/Reflector.Type.cs:272-275 | every compiler-generated anonymous type passes the name test |
| Serialization.SystemTypesNotAnonymous | Utils/Reflector.Type.cs:272-275 | no library type other than an array passes the name test |
| Serialization.BasicKeepsDeclaredType | Utils/SerializationNode.cs:28-29 | simple types and their nullable forms are Basic, keeping the declared type and its name |
| Serialization.NullableIntIsBasic | Utils/SerializationNode.cs:28-29 | int? is Basic and named ``Nullable`1`` |
| Serialization.DictionaryIsDict | Utils/SerializationNode.cs:31 | Dictionary<K, V> is Dict with item type V named after V plus "s" |
| Serialization.ListIsList | Utils/SerializationNode.cs:32 | List<T> is List with item type T named after T plus "s" |
| Serialization.ArrayIsArray | Utils/SerializationNode.cs:33 | T[] is Array, named after T's ToString text plus "s" |
| Serialization.AnonymousArrayFails | Utils/SerializationNode.cs:30 | an array whose element name looks anonymous passes the name test and has no generic argument |
| Serialization.AnonymousIsClass | Utils/SerializationNode.cs:30 | an anonymous type is Class named "Anonymous" with its first property's type; one without properties fails |
| Serialization.OthersAreClass | Utils/SerializationNode.cs:34 | everything else is Class under its own name, decimal and the non-generic collections included |
| XmlNodes.NodeName | Utils/Xmlizer.cs:389 | an element's name is its tag |
| XmlNodes.ChildNodes | Utils/Xmlizer.cs:387 | child nodes are structurally smaller than their parent |
| XmlNodes.TextNodes | Utils/Xmlizer.cs:193 | empty text makes no node, other text exactly one text node |
| XmlNodes.MarkupAll | Utils/Xmlizer.cs:160-162 | no nodes are no markup |
| XmlNodes.MarkupsIsMarkupAll | Utils/Xmlizer.cs:160-162 | sibling markup does not depend on the parent |
| XmlNodes.ElementMarkup | Utils/Xmlizer.cs:224-226 | an element's markup is its tags around its children's markup |
| XmlNodes.MarkupAllAppend | Utils/Xmlizer.cs:220-227 | the markup of consecutive nodes concatenates |
| XmlNodes.AppendElement | Utils/Xmlizer.cs:280-282 | appending `<name>`, the content's markup and `</name>` appends the element's markup |
| XmlNodes.InnerTextsAppend | Utils/Xmlizer.cs:326 | the inner text of consecutive nodes concatenates |
| XmlNodes.InnerTextOfText | Utils/Xmlizer.cs:326 | an element holding a text's nodes has that text as inner text |
| XmlNodes.TextMarkup | Utils/Xmlizer.cs:193 | text without '<' or '&' is its own markup |
| XmlNodes.ElementsNamed | Utils/Xmlizer.cs:353 | the selected children are elements of that name, drawn from the children, no more of them than there are |
| XmlNodes.SelectNodes | Utils/Xmlizer.cs:353 | fails exactly for a name that is not an XML name, and otherwise selects the child elements of that name |
| XmlNodes.FirstNamed | Utils/Xmlizer.cs:338 | the first child element of the name, none exactly when no child has it |
| XmlNodes.SelectSingleNode | Utils/Xmlizer.cs:338 | fails exactly for a name that is not an XML name, and otherwise finds the first child element of that name |
| XmlNodes.ElementsNamedAll | Utils/Xmlizer.cs:353 | elements all of the selected name are all kept |
| XmlNodes.ElementsNamedNone | Utils/Xmlizer.cs:353 | elements none of which has the name are all dropped |
| XmlNodes.StringBuilder.Append | Utils/Xmlizer.cs:155-162 | Append adds the text at the end of the buffer |
| XmlWriting.CamelName | Utils/Xmlizer.cs:106-109 | the name unchanged unless FormatLowCamel, then every character lower-cased |
| XmlWriting.TagName | Utils/Xmlizer.cs:112-119 | the only failure is a stack overflow |
| XmlWriting.TagNameAgreesWithFixed | Utils/Xmlizer.cs:112-119 | wherever GetTagName returns, it returns the intended name |
| XmlWriting.ListTagName | Utils/Xmlizer.cs:116 | a list is named after its items plus "s", and fails where they fail |
| XmlWriting.ArrayTagNameOverflows | Utils/Xmlizer.cs:116-117 | GetTagName recurses forever on an array (the IsList test comes first) and on ArrayList |
| XmlWriting.FixedArrayTagName | Utils/Xmlizer.cs:117 | the intended name of an array is its element's name plus "s", as for a list |
| XmlWriting.XmlTextEncode | Utils/Xmlizer.cs:122-128 | text holding '<' or '&' is wrapped in CDATA with one space of padding on each side; other text is unchanged |
| XmlWriting.EncodedText | Utils/Xmlizer.cs:122-128 | the encoded text is at most one node |
| XmlWriting.EncodedTextMarkup | Utils/Xmlizer.cs:122-128 | the encoded text is the markup of its node |
| XmlWriting.EncodedTextInnerText | Utils/Xmlizer.cs:122-128 | encoded text reads back as the text, except that CDATA adds the padding spaces |
| XmlWriting.XmlTagEncode | Utils/Xmlizer.cs:131-136 | a key holding '<', '&', '/' or '>' is URL-encoded, any other is unchanged |
| XmlWriting.TagRoundTrip | Utils/Xmlizer.cs:131-142 | a key without '%' or '+' reads back from its tag |
| XmlWriting.PlusKeyReadsAsSpace | Utils/Xmlizer.cs:131-142 | "a+b" is written unencoded and decoded to "a b" |
| XmlWriting.FormatNoArgs | Utils/Xmlizer.cs:208 | AppendFormat without arguments fails only with a FormatException |
| XmlWriting.DoubleBraces | Utils/Xmlizer.cs:208 | doubling braces never shortens the text |
| XmlWriting.FormatNoArgsOfDoubled | Utils/Xmlizer.cs:208 | formatting undoes brace doubling; text without braces formats as itself |
| XmlWriting.LoneBraceFails | Utils/Xmlizer.cs:208 | a lone brace is refused |
| XmlWriting.EnumText | Utils/Xmlizer.cs:197-201 | the number under EnumFomatting.Int, Enum.ToString (EnumName) under Text |
| XmlWriting.DateNodes | Utils/Xmlizer.cs:204-209 | default(DateTime) writes nothing; another date its formatted text, failing exactly when that text is not a valid format string |
| XmlWriting.Library | Utils/Xmlizer.cs:112-119 | the writer's naming services are FromType, GetTagName and the tag-encoded key text |
| XmlWriting.FieldValue | Utils/Xmlizer.cs:275 | a non-null property value is the object's field |
| XmlWriting.Then | Utils/Xmlizer.cs:220-283 | the first failure wins; otherwise the nodes concatenate |
| XmlWriting.ItemNode | Utils/Xmlizer.cs:220-227 | each item is one element; a null item throws NullReference |
| XmlWriting.EntryNode | Utils/Xmlizer.cs:235-241 | each entry is one element named by its key's tag text |
| XmlWriting.PropertyNode | Utils/Xmlizer.cs:267-283 | at most one element per property; an ignored property writes nothing |
| XmlWriting.RootName | Utils/Xmlizer.cs:156-157 | the given root name, else GetTagName of the value's type; a null value without a root name throws |
| XmlWriting.DocumentText | Utils/Xmlizer.cs:153-164 | the document is the optional declaration, then the root tags around the value's markup, or the failure that stops the write |
| XmlReading.Reflection | Utils/Xmlizer.cs:299-398 | the reader's services are FromType, Type.Name and ParseBasicType |
| XmlReading.Parse | Utils/Xmlizer.cs:299-310 | a basic type is parsed from the whole text; anything else from the loaded document element, an XmlException when it does not load |
| XmlReading.Defaults | Utils/Xmlizer.cs:334 | a new instance holds every property at its type's default |
| XmlReading.NewInstance | Utils/Xmlizer.cs:334 | CreateInstance fails exactly without a parameterless constructor and gives an object of defaults |
| XmlReading.SetField | Utils/Xmlizer.cs:343 | SetValue changes the i-th field and nothing else |
| XmlReading.ReadObject | Utils/Xmlizer.cs:331-346 | a node without children is null; a class that cannot be created fails |
| XmlReading.ReadArray | Utils/Xmlizer.cs:363-376 | as written, ParseNodeToArray always fails |
| XmlReading.Keys | Utils/Xmlizer.cs:395 | one key per entry, in order |
| XmlReading.AddEntry | Utils/Xmlizer.cs:395 | IDictionary.Add succeeds exactly for an accepted value, a string-compatible key type and a new key, and appends the entry |
| XmlReading.ReadPropertiesIndependent | Utils/Xmlizer.cs:335-345 | the property loop succeeds exactly when each property reads on its own, and then each holds its own value |
| XmlReading.PropertyStepValue | Utils/Xmlizer.cs:337-343 | one pass stores what the property reads to on its own |
| XmlReading.ReadItemsAll | Utils/Xmlizer.cs:354-358 | one item per selected node, in order; read exactly when every node reads and is accepted by IList.Add |
| XmlReading.ReadElementsAll | Utils/Xmlizer.cs:363-376 | the corrected array holds one element per selected node, in order |
| XmlReading.ReadEntriesKeys | Utils/Xmlizer.cs:387-397 | one entry per child node, keyed by its decoded name |
| XmlReading.ReadEntriesValues | Utils/Xmlizer.cs:387-397 | each entry's value is its node read as the value type |
| XmlReading.ReadEntriesDistinct | Utils/Xmlizer.cs:387-397 | a dictionary that is read has distinct keys |
| XmlReading.EntryStepOk | Utils/Xmlizer.cs:387-397 | a successful pass adds one entry with a new key to a successful prefix |
| XmlReading.ReadEntriesOk | Utils/Xmlizer.cs:387-397 | nodes that all read, with distinct decoded names, give a dictionary |
| XmlReading.RepeatedKeyFails | Utils/Xmlizer.cs:395 | two children decoding to the same key make the read fail |
| XmlReading.ArrayNeverReads | Utils/Xmlizer.cs:363-376 | an array type is never read: once the item name is valid, InvalidCast |
| XmlRoundTrip.Present | Utils/Xmlizer.cs:276-277 | at most one element per position |
| XmlRoundTrip.ChildrenNamed | Utils/Xmlizer.cs:338 | with distinct names, the only child of a name is its own element, present exactly when it has a body |
| XmlRoundTrip.FirstNamedChildren | Utils/Xmlizer.cs:338 | looking up a property's name finds its own element |
| XmlRoundTrip.FitsType | Utils/Xmlizer.cs:343 | a fitting value is not null and can be stored as it is |
| XmlRoundTrip.ReadText | Utils/Xmlizer.cs:324-328 | an element holding text, read as a simple type, is ParseBasicType of the text |
| XmlRoundTrip.EnumTextParses | Utils/Xmlizer.cs:197-201 | enum text in either format is non-empty and parses back as the value |
| XmlRoundTrip.ScalarRoundTrip | Utils/Xmlizer.cs:191-214 | strings without '<' or '&', booleans, in-range integers and enums are written as text and read back |
| XmlRoundTrip.PropertyNames | Utils/Xmlizer.cs:279 | one tag name per property, in order |
| XmlRoundTrip.Written | Utils/Xmlizer.cs:275-282 | a property's element is present exactly when its value is not null and writes |
| XmlRoundTrip.PropertyNodesChildren | Utils/Xmlizer.cs:264-284 | the property loop writes each non-null property's element in order and skips null ones under IgnoreNull |
| XmlRoundTrip.ObjWrites | Utils/Xmlizer.cs:264-284 | an object is written as its properties' elements |
| XmlRoundTrip.ItemNodesAll | Utils/Xmlizer.cs:218-228 | one element per item, named by the classifier from the item's runtime type |
| XmlRoundTrip.ListWrites | Utils/Xmlizer.cs:218-228 | a list is written as its items' elements |
| XmlRoundTrip.EntryNodesAll | Utils/Xmlizer.cs:232-242 | one element per entry, named by its key's tag text |
| XmlRoundTrip.DictWrites | Utils/Xmlizer.cs:232-242 | a dictionary is written as its entries' elements |
| XmlRoundTrip.PropertyReadsBack | Utils/Xmlizer.cs:337-343 | a property reads the value its element holds and keeps its value when the element is missing |
| XmlRoundTrip.ObjDispatch | Utils/Xmlizer.cs:313-346 | an element with children, read as a plain class, is a new instance with its properties read in order |
| XmlRoundTrip.FieldsReadBack | Utils/Xmlizer.cs:337-343 | each property, read from its default, reads back as its value |
| XmlRoundTrip.ObjReads | Utils/Xmlizer.cs:331-346 | the elements of an object's non-null properties read back as the object |
| XmlRoundTrip.ListReads | Utils/Xmlizer.cs:349-360 | items all named after the item type read back as the list |
| XmlRoundTrip.DictReads | Utils/Xmlizer.cs:386-398 | entries under tags decoding to distinct keys read back as the dictionary |
| XmlRoundTrip.RoundTrip | Utils/Xmlizer.cs:420-472 | every value that fits its declared type is written and read back unchanged |
| XmlRoundTrip.ItemTypeName | Utils/Xmlizer.cs:222-224 | a fitting item type is named alike by the writer's classifier and the reader's Type.Name |
| XmlRoundTrip.ObjRoundTrip | Utils/Xmlizer.cs:264-284 | a fitting object makes the round trip |
| XmlRoundTrip.ObjFromFields | Utils/Xmlizer.cs:264-346 | an object whose non-null properties each round-trip makes the round trip |
| XmlRoundTrip.ObjClassified | Utils/SerializationNode.cs:34 | a plain class classifies as Class and can be created |
| XmlRoundTrip.ObjWritesChildren | Utils/Xmlizer.cs:264-284 | an object's element holds its non-null properties' elements |
| XmlRoundTrip.ObjFieldsReadable | Utils/Xmlizer.cs:331-346 | what the writer wrote for the properties is what the reader needs |
| XmlRoundTrip.ListRoundTrip | Utils/Xmlizer.cs:218-228 | a fitting list makes the round trip |
| XmlRoundTrip.DictRoundTrip | Utils/Xmlizer.cs:232-242 | a fitting dictionary makes the round trip |
| XmlRoundTrip.DictFromEntries | Utils/Xmlizer.cs:232-242 | a dictionary whose entries each round-trip makes the round trip |
| XmlRoundTrip.ArrayReads | Utils/Xmlizer.cs:363-376 | with the corrected ParseNodeToArray, item elements read back as the array |
| XmlRoundTrip.ArrayFixedRoundTrip | Utils/Xmlizer.cs:363-376 | an array written under a tag reads back with the corrected ParseNodeToArray |
| XmlRoundTrip.CDataPadding | Utils/Xmlizer.cs:122-128 | a string holding '<' or '&' comes back with one space of padding on each side |
| XmlRoundTrip.DefaultDateWritesNothing | Utils/Xmlizer.cs:204-209 | default(DateTime) writes no text |
| XmlRoundTrip.EmptyDateReads | Utils/Convertor.Parse.cs:93-125 | an element without text reads as the default date, or null for DateTime? |
| XmlRoundTrip.PlainStringWrites | Utils/Xmlizer.cs:191-194 | a string without '<' or '&' is written as its text |
| XmlRoundTrip.ObjectListWrites | Utils/Xmlizer.cs:222-226 | a List<object> holding a string names the item after its runtime type, String |
| XmlRoundTrip.ListOfNoneNamed | Utils/Xmlizer.cs:353 | a list element with no child named after the item type reads as an empty list |
| XmlRoundTrip.ObjectListReads | Utils/Xmlizer.cs:353 | the reader looks for children named Object and finds none |
| XmlRoundTrip.ObjectListDropsItems | Utils/Xmlizer.cs:218-228 | so a list of objects holding a string comes back empty |
| XmlRoundTrip.PlusKeyWrites | Utils/Xmlizer.cs:131-136 | a key with '+' but none of the four specials is written as it is |
| XmlRoundTrip.PlusKeyReads | Utils/Xmlizer.cs:139-142 | and read back with a space in place of the '+' |
| XmlRoundTrip.PlusKeyDictionary | Utils/Xmlizer.cs:131-142 | so a dictionary keyed "a+b" comes back keyed "a b" |
| XmlRoundTrip.NullObjectReadsAsNull | Utils/Xmlizer.cs:276-277 | an object whose properties are all null is written as an empty element, which reads as null |
| XmlRoundTrip.ChildrenAbsent | Utils/Xmlizer.cs:276-277 | without bodies there are no children |
| Xmlizer.Xmlizer.constructor | Utils/Xmlizer.cs:94-103 | the five settings are stored |
| Xmlizer.Xmlizer.ToXml | Utils/Xmlizer.cs:153-164 | the buffer's text is the document: root name, optional declaration, the root element around the value |
| Xmlizer.Xmlizer.WriteDocument | Utils/Xmlizer.cs:158-163 | the declaration when asked, then the root element around the value |
| Xmlizer.Xmlizer.WriteInner | Utils/Xmlizer.cs:168-188 | appends the markup of the value's nodes, or reports the exception that stops the write |
| Xmlizer.Xmlizer.WriteComposite | Utils/Xmlizer.cs:179-186 | the tag name check, then WriteDict, WriteList or WriteClass |
| Xmlizer.Xmlizer.WriteString | Utils/Xmlizer.cs:191-194 | appends the encoded text |
| Xmlizer.Xmlizer.WriteEnum | Utils/Xmlizer.cs:197-201 | appends the enum's text |
| Xmlizer.Xmlizer.WriteDateTime | Utils/Xmlizer.cs:204-209 | appends the date's nodes or reports the format failure |
| Xmlizer.Xmlizer.WriteValue | Utils/Xmlizer.cs:212-215 | appends the primitive's text |
| Xmlizer.Xmlizer.WriteList | Utils/Xmlizer.cs:218-228 | appends each item's element, stopping at the first failure |
| Xmlizer.Xmlizer.WriteItem | Utils/Xmlizer.cs:222-226 | appends `<Name>`, the item and `</Name>` |
| Xmlizer.Xmlizer.WriteDict | Utils/Xmlizer.cs:232-242 | appends each entry's element, stopping at the first failure |
| Xmlizer.Xmlizer.WriteEntry | Utils/Xmlizer.cs:237-240 | appends `<key>`, the value and `</key>` |
| Xmlizer.Xmlizer.WriteClass | Utils/Xmlizer.cs:264-284 | appends each written property's element, stopping at the first failure |
| Xmlizer.Xmlizer.WriteProperty | Utils/Xmlizer.cs:270-282 | skips the property or appends `<Name>`, its value and `</Name>` |
| Xmlizer.Xmlizer.Parse | Utils/Xmlizer.cs:299-310 | computes the reader's Parse |
| Xmlizer.Xmlizer.ParseNode | Utils/Xmlizer.cs:313-321 | computes ReadNode |
| Xmlizer.Xmlizer.ParseNodeToValue | Utils/Xmlizer.cs:324-328 | computes ReadValue |
| Xmlizer.Xmlizer.ParseNodeToObject | Utils/Xmlizer.cs:331-346 | computes ReadObject |
| Xmlizer.Xmlizer.ParseProperty | Utils/Xmlizer.cs:337-343 | computes one pass of the property loop |
| Xmlizer.Xmlizer.ParseNodeToList | Utils/Xmlizer.cs:349-360 | computes ReadList |
| Xmlizer.Xmlizer.ParseNodeToArray | Utils/Xmlizer.cs:363-376 | computes ReadArray |
| Xmlizer.Xmlizer.ParseNodeToDict | Utils/Xmlizer.cs:386-398 | computes ReadDict |
| Xmlizer.ItemStep | Utils/Xmlizer.cs:220-227 | an item's failure fails the whole list, otherwise its element follows |
| Xmlizer.EntryStep | Utils/Xmlizer.cs:235-241 | an entry's failure fails the whole dictionary, otherwise its element follows |
| Xmlizer.PropertyStep | Utils/Xmlizer.cs:267-283 | a property's failure fails the whole object, otherwise its element follows |
| Xmlizer.PropertiesStep | Utils/Xmlizer.cs:335-345 | one more property read: its failure fails the object, else the instance continues |
| Xmlizer.ItemsStep | Utils/Xmlizer.cs:354-358 | one more list item: its failure fails the list, else it is appended |
| Xmlizer.EntriesStep | Utils/Xmlizer.cs:389-396 | one more dictionary entry: its failure fails the dictionary, else it is added |
| Numbers.ParseIntegerOfIntToString | Utils/Convertor.Parse.cs:223-229 | the decimal text of any integer is read back as that same integer by the digit parse int.TryParse applies before its range check |
| Numbers.ParseIntegerIgnoresTrailingNull | Utils/Convertor.Parse.cs:223-229 | a trailing '\0' does not change what the integer parse reads |
| Numbers.ParseIntegerOfNullTerminated | Utils/Convertor.Parse.cs:223-229 | "12\0" reads as 12, while white space after the '\0' makes the text fail |
| EnumNames.NameMatch | Utils/Convertor.Parse.cs:150-160 | a match is the index of a member whose name equals the piece ignoring case |
| EnumNames.NameMatchFirst | Utils/Convertor.Parse.cs:150-160 | the name match is the first member whose name equals the piece ignoring case; no earlier member, and none at all when there is no match, has that name |
| EnumNames.NamesValueSome | Utils/Convertor.Parse.cs:150-160 | a comma list gives a value exactly when every trimmed piece names a member |
| EnumNames.NamesValueOfPieces | Utils/Convertor.Parse.cs:150-160 | the value of a list whose pieces name given members is the OR of those members' bit patterns |
| EnumNames.ParseEnumNames | Utils/Convertor.Parse.cs:150-160 | the names branch of Enum.Parse gives a value within Int32 |
| EnumNames.FromBits32 | Utils/Convertor.Parse.cs:150-160 | Enum.ToObject's unchecked narrowing: an Int32 whose 32-bit pattern is the low 32 bits of the input |
| EnumNames.BitOrSelf | Utils/Convertor.Parse.cs:150-160 | OR-ing a pattern with itself gives the pattern, so a repeated name adds nothing |
| Numbers.ParseDigitsOfNatToString | Utils/Convertor.Parse.cs:223-229 | the digits of a natural number's shortest numeral read back as the number |
| Numbers.ParseHexDigitsOfNatToHexLower | Utils/Convertor.Encoder.cs:342 | the lower-case hexadecimal text UnicodeEncode writes for a code unit reads back as that code unit |
| Numbers.HexByteUpper | Utils/Convertor.Encoder.cs:245 | "{0:X2}" of a byte is exactly two hexadecimal digits whose value is the byte |
| Strings.SplitOfJoin | Utils/Convertor.Encoder.cs:258 | splitting a join on a separator no item contains gives the items back |
| Strings.SplitJoin | Utils/Convertor.Encoder.cs:258 | joining the pieces of a split with the separator gives the text back |
| Strings.Utf16OfBasic | Utils/JsonConverters.cs:93-102 | text of characters below U+10000 has one UTF-16 code unit per character, each the character's own code |

## Left out

- Network and platform I/O (HTTP requests, the access-token and API calls, file-system work, caches, configuration) are not part of this model.
- MD5, SHA-1, UTF-8 encoding, `Encoding.GetBytes` of the multipart body, URL encoding and decoding, date text formatting and parsing, and the XML text parser (`XmlDocument.LoadXml`) are function parameters, not implementations. The lemmas that need their laws state them as preconditions.
- The ordering of `OrderBy` (the default string comparer) is a comparer parameter. The canonical-order lemmas require it to be a total order; the culture rules of .NET string comparison are not modelled.
- A `Dictionary`'s enumeration order is its insertion order, modelled as a sequence of entries. Distinct keys are an invariant where the source's `Add` would throw.
- Random values are parameters: the GUID behind the nonce and the multipart boundary.
- The copy of the `MemoryStream` into a byte array at the end of `BuildMultipartFormData` is not modelled: the body is the sequence of bytes written.
- The current time (`DateTime.Now`) is a parameter wherever the source reads it.
- Floating point is not modelled. This covers `UnifiedOrder`'s `fee * 100`, the float, double and decimal parsers, and `ToSizeText`. The mapper reads and writes these values through text parameters.
- `ToFriendlyText`, `ToTimeStamp` and `ParseTimeStamp` depend on the clock and on time zones, and are not part of this model.
- The mini-program `BuildPaySign` overload is not part of this model. The dictionary form is modelled.
- `DateTimeKind` is not modelled: a date is its tick count.
- Case folding is ASCII only. .NET's culture-aware `ToLower` and `ToUpper` on other letters are not modelled.
- Anonymous types are identified by their compiler-generated name, and the numbering of those names is not modelled.
- The nested class `item` of the push messages is a class named `item` in the reply namespace. The `PushMessage+` part of its full name is not modelled.
- `ReplyNews` with null elements in its list is not modelled; the items are values.
- `ReplyMiniProgram` takes an application id that the source never writes; the model accepts it and ignores it, as the source does.
- The `WriteDataTable` branch of the writer, `TypeNameConverter`, `DateTimeConverter` and `UnicodeConverter.ReadJson` are library-type or Newtonsoft plumbing and are not part of this model.
- `FreeDictionary`, `Url`, `AddQueryString`, `SetQueryString` and `GetQuery` depend on types that are not part of this model.
- Regular-expression helpers are not modelled (`RemoveTag`, `RemoveHtml`, `Slim`, `ParseQueryDict`, `ToBitBytes`), and neither is `GetNextName` with a format other than `_{0}`.
- The mapper's `FormatIndent` setting is kept in the settings record, but the writer never reads it, so it has no effect in the model either.
- Reflection machinery (`Reflector`, attributes, `EnumHelper`, `Convertor.To`) is replaced by the `TypeDesc` and `Value` datatypes. The properties of a class are a schema map from class name to property list.
- IOFile.NextNameNumbered: GetNextName is modelled with the default format `_{0}` only. The model's `\d` matches ASCII digits only, where .NET's matches any Unicode decimal digit. A `$` anchor before a final newline is not modelled.
- JsonConverters.WriteTimestamp: `TotalSeconds` is taken as exact whole seconds. The cast of a double outside the Int32 range is not modelled.
- HttpHelper.PartHeaderName: requires that the key contains no double quote. The source writes such a key unescaped, and the header's shape then differs.
- StringHelper.Summary: lengths count characters, not UTF-16 code units. For text outside the Basic Multilingual Plane the source cuts at a code-unit count (and can split a surrogate pair), which the model does not.
- StringHelper.SubText: indices and lengths count characters, not UTF-16 code units, so for text with characters outside the Basic Multilingual Plane the source's offsets differ.
- StringHelper.TrimEnd: the offsets of TrimEnd, TrimStart, GetEnd and GetStart count characters, not UTF-16 code units.
- StringHelper.LastIndexOfKey: the source's `IndexOf`, `LastIndexOf`, `StartsWith` and `EndsWith` with a string argument use the current culture's comparison; the model compares characters ordinally, which agrees for ASCII text without ignorable characters.
- IOFile.ToRelativePath: the prefix test is ordinal and counts characters, where the source's `StartsWith` is culture-sensitive and its `Substring` counts UTF-16 code units.
- Ordering.SortBy: OrderBy's stability is not stated. Where keys determine elements, every sorted arrangement is the same (Ordering.SortedUnique).
- Values.EnumName: enum types carry no [Flags] mark, so the model writes every enum as an enum without [Flags]. For a [Flags] enum (the source declares some in Utils/ParamAttribute.cs) Enum.ToString writes a value made of several members as their names joined by ", " ("A, B" for 3 when A = 1 and B = 2), where the model writes the number.
- XmlWriting.EnumText: under EnumFomatting.Text the combined value of a [Flags] enum is written as its number, not as the ", "-joined member names the source writes (see Values.EnumName). Reading such text back is modelled (ConvertorParse.ParseEnumOfNameList).
- Ordering.SortByCanonical: proved only for a comparer that is a total order whose only ties are equal strings. The source relies on the runtime's comparer.

## Findings

Each row names a member that models the code as written, with the lemma that shows the discrepancy, and a corrected member with the evidently intended property proved. The mapper and the encoders keep the as-written definitions, so their results are the code's. The corrected definitions stand beside them, with their own round-trip lemmas.

| source | as written | input that shows it | evidently intended | confidence | as-written member | corrected member |
|---|---|---|---|---|---|---|
| Utils/Xmlizer.cs:112-119 | GetTagName tests IsList before IsArray. An array implements IList, and GetGenericDataType of an array is the array itself, so the call recurses forever | any `T[]` that is not anonymous, and ArrayList | the array branch: the element type's name plus "s", as for a list | high, not executed | XmlWriting.ArrayTagNameOverflows | XmlWriting.FixedArrayTagName |
| Utils/Xmlizer.cs:363-376 | ParseNodeToArray creates the array with the array type itself as the element type, and `Convert.ChangeType` of that array to the array type throws | any `<Items><Int32>1</Int32></Items>` read as `int[]` | an array of the item type holding the selected items | high, not executed | XmlReading.ArrayNeverReads | XmlRoundTrip.ArrayFixedRoundTrip |
| Utils/Convertor.Encoder.cs:339-342 | UnicodeEncode writes `ToString("x")`, with no zero padding, so units U+0101 to U+0FFF get three digits, and a four-digit `\u` decoder then reads the next character as a digit | U+0101 followed by `a` becomes `\u101a`, which decodes as U+101A | four digits per escape (`x4`) | medium, not executed | Encoder.UnicodeEncodeMisreads | Encoder.EscapedRoundTrip |
| Utils/Convertor.Encoder.cs:256-262 | the space-separated branch of ToHexBytes parses each token as a decimal integer | `ToHexString([0x10], true)` = "10 ", which reads back as 10; "1A " is a format error | each token parsed as hexadecimal, as the documented example "86 fb 26" requires | high, not executed | Encoder.HexBytesSpacedMisreads | Encoder.HexBytesFixedRoundTrip |
| Pay/WechatPay.cs:139-142 | BuildNonceStr applies `SubText(32)`, the suffix from index 32, to the 32-digit GUID text | every GUID: the nonce is always "" | the first 32 characters, `SubText(0, 32)` | high, not executed | WechatPay.NonceAlwaysEmpty | WechatPay.NonceIsGuid |
