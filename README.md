# A Dafny model of seven pieces of the POCO C++ libraries

This project models, and proves properties of, the following parts of POCO.

- **Redis client** (`Redis/include/Poco/Redis/Client.h`). It covers:
  - the five kinds of reply: Int64, simple string, bulk string, array and error;
  - how `readReply<T>` coerces a reply to the type the caller asks for;
  - `execute<T>` and `execute<void>`;
  - `sendCommand` and `sendCommands`;
  - the pipelining rule that every `writeCommand` is matched by one `readReply`.

  The socket is a FIFO: the commands written so far, plus the queue of replies not yet read. The server is a parameter: a function from the commands written so far to the reply to the last one. A ghost count tracks the outstanding replies, and a ghost trace records the events on the socket in order.
- **RegularExpression** (`Foundation/src/RegularExpression.cpp`, `Foundation/include/Poco/RegularExpression.h`). It covers:
  - the `Options` values;
  - the conversion of PCRE's output vector into `Match` / `MatchVec`;
  - the error codes that become exceptions;
  - the `bool match` whole-subject test;
  - `extract` and `split`;
  - the copy-and-splice loop of `substOne`, with its `$d` expansion;
  - the `RE_GLOBAL` counting loop of `subst`;
  - the way the static `match` splits its options;
  - the inline offset-0 overloads.

  `pcre_exec` is a function parameter (`Matcher`). The predicate `Sound` states what PCRE guarantees about the output vector, and every operation assumes it of its matcher.
- **LoggingRegistry** (`Foundation/src/LoggingRegistry.cpp`): a class with two maps, one for channels and one for formatters. Each map has lookup-or-throw, insert-or-replace, erase-or-throw and clear.
- **Timestamp** (`Foundation/src/Timestamp.cpp`). It covers:
  - the conversions from epoch seconds, from UUID time and from a Windows FILETIME, and back to it;
  - copying;
  - assignment and `swap`.

  The arithmetic is written out explicitly: 64-bit wrap-around, and C++ division, which truncates toward zero.
- **UnicodeConverter** (`Foundation/src/UnicodeConverter.cpp`): the byte loop of `toUTF16(const char*, int, std::wstring&)` and its `strlen` overload. The caller supplies UTF8Encoding's character map and its `convert` function.
- **NumberFormatter** for integers, as `Foundation/testsuite/src/NumberFormatterTest.cpp` pins it down:
  - `format`, with and without a width;
  - `format0`;
  - `formatHex`, with and without a width.

Files:
- `wrappers.dfy`: Option and Result.
- `fixed_width.dfy`: the fixed-width integer types and two's-complement wrap-around.
- One file per source file: `redis_client.dfy`, `regular_expression.dfy`, `logging_registry.dfy`, `timestamp.dfy`, `unicode_converter.dfy`, `number_formatter.dfy`.

Exceptions become the `Err` case of a `Result`, or a constructor of a result datatype.

## Model

| member | source | states |
|---|---|---|
| RedisClient.Coerce | Redis/include/Poco/Redis/Client.h:125-140 | An error reply becomes a RedisException carrying its message. Any other reply comes back unchanged exactly when its type is the one asked for, and is a BadCastException otherwise. |
| RedisClient.NullBulkStringIsNotEmpty | Redis/include/Poco/Redis/Client.h:37-52 | A Null bulk string and an empty bulk string both pass coercion to BulkString, and they stay distinct. |
| RedisClient.ErrorCheckedBeforeType | Redis/include/Poco/Redis/Client.h:133-136 | An error reply raises RedisException(message) whatever type was asked for. |
| RedisClient.Client.constructor | Redis/include/Poco/Redis/Client.h:57-59 | A new client has written nothing, has nothing pending, and nothing outstanding. |
| RedisClient.Client.WriteCommand | Redis/include/Poco/Redis/Client.h:159-163 | The command is appended to the written commands, and its reply is queued behind the earlier ones. Outstanding grows by one. The trace gains Wrote(command). |
| RedisClient.Client.ReadReply | Redis/include/Poco/Redis/Client.h:122-123 | Takes the oldest queued reply, which is the reply to the oldest unanswered command. Outstanding drops by one. The trace gains Read(reply). |
| RedisClient.Client.ReadReplyAs | Redis/include/Poco/Redis/Client.h:125-140 | Coerces the oldest reply. The reply is consumed even when the coercion throws. |
| RedisClient.Client.Execute | Redis/include/Poco/Redis/Client.h:100-116 | One Wrote, then one Read, in that order. Outstanding is unchanged. With nothing outstanding before, the result is the coercion of this command's own reply. |
| RedisClient.Client.ExecuteVoid | Redis/include/Poco/Redis/Client.h:173-177 | Only writes. The reply stays queued and outstanding grows by one. |
| RedisClient.Client.SendCommand | Redis/include/Poco/Redis/Client.h:118-120 | Writes the command and returns the oldest reply uncoerced, keeping the rest queued. With nothing outstanding before, that reply is the command's own. Otherwise it is the oldest earlier reply. |
| RedisClient.SendCommandBehindPending | Redis/include/Poco/Redis/Client.h:118-120 | A sendCommand after an unread execute<void> returns the earlier command's reply. Its own reply comes with the next read. |
| RedisClient.Client.SendCommands | Redis/include/Poco/Redis/Client.h:142-144 | All the Wrote events come before all the Read events. There is one reply per command. The replies read plus the queue equal the old queue plus the server's responses to the commands, in order. |
| RedisClient.Pipeline | Redis/include/Poco/Redis/Client.h:159-163 | After two execute<void> calls, two reads return the replies to the two commands in the order they were written. |
| RedisClient.MismatchThenExecute | Redis/include/Poco/Redis/Client.h:132-139 | A BadCastException still consumes its reply, so the next execute gets its own command's reply. |
| RegularExpression.Exec | Foundation/src/RegularExpression.cpp:77 | pcre_exec sees only options & 0xFFFF, and its result satisfies PCRE's guarantees for those options. |
| RegularExpression.ExecError | Foundation/src/RegularExpression.cpp:78-97 | A return code throws exactly when it is neither positive nor PCRE_ERROR_NOMATCH. |
| RegularExpression.MatchAt | Foundation/src/RegularExpression.cpp:98-99 | An unset group becomes (npos, 0). A set group becomes (ovec[2i], ovec[2i+1] - ovec[2i]). |
| RegularExpression.MatchOne | Foundation/src/RegularExpression.cpp:72-101 | No match gives 0 with (npos, 0). A success gives rc with (ovec[0], ovec[1] - ovec[0]). BADOPTION, 0 and every other negative code are errors. |
| RegularExpression.MatchOneFromStart | Foundation/include/Poco/RegularExpression.h:226-229 | Equals the offset-0 call. |
| RegularExpression.MatchAll | Foundation/src/RegularExpression.cpp:104-139 | The vector starts cleared. On success it holds exactly rc entries, entry i being group i. On an error it is empty. The result code is the Match overload's. |
| RegularExpression.MatchesWith | Foundation/src/RegularExpression.cpp:150-155 | True iff the match starts at the offset and ends at the end of the subject. A pcre error is raised as in match. |
| RegularExpression.Matches | Foundation/src/RegularExpression.cpp:142-147 | Uses RE_ANCHORED and RE_NOTEMPTY. True iff PCRE matches up to the end of the subject, and then the rest of the subject is not empty. |
| RegularExpression.AnchoredNotEmptyReachPcre | Foundation/src/RegularExpression.cpp:145 | RE_ANCHORED and RE_NOTEMPTY survive the 0xFFFF mask. |
| RegularExpression.Extract | Foundation/src/RegularExpression.cpp:170-179 | On success, str is the whole match and the result is rc. On no match, str is cleared and the result is 0. When match throws, str is untouched. |
| RegularExpression.ExtractFromStart | Foundation/src/RegularExpression.cpp:158-167 | Equals the offset-0 extract. |
| RegularExpression.SplitStringsAt | Foundation/src/RegularExpression.cpp:188-194 | String i is the text of group i's Match: its substring, or "" when the group is unset. |
| RegularExpression.SplitFirstIsExtract | Foundation/src/RegularExpression.cpp:158-196 | The first string split yields is the one extract yields. |
| RegularExpression.CapturedStrings | Foundation/src/RegularExpression.cpp:188-194 | One string per Match, in order. Each is the substring it denotes, or "" for npos. |
| RegularExpression.Split | Foundation/src/RegularExpression.cpp:182-196 | The result code and errors are those of match. The strings are one per group on success and none otherwise. |
| RegularExpression.SplitFromStart | Foundation/include/Poco/RegularExpression.h:232-235 | Equals the offset-0 split. |
| RegularExpression.AppendExpansion | Foundation/src/RegularExpression.cpp:251-281 | The inner replacement loop appends exactly the expansion of the replacement to the result, or fails as the expansion does. |
| RegularExpression.ExpandLiteral | Foundation/src/RegularExpression.cpp:255 | With RE_NO_VARS the replacement is copied as it is. |
| RegularExpression.ExpandPlain | Foundation/src/RegularExpression.cpp:280 | A replacement without '$' is copied as it is. |
| RegularExpression.Expand | Foundation/src/RegularExpression.cpp:253-281 | The replacement text substOne inserts. The only way it can fail is std::out_of_range, from appending a group that did not take part in the match. The lemmas below give its cases. |
| RegularExpression.ExpandAfterPlain | Foundation/src/RegularExpression.cpp:280 | Text without '$' in front of the rest is copied, and the rest expands as it would on its own. |
| RegularExpression.ExpandGroup | Foundation/src/RegularExpression.cpp:261-269 | After '$'-free text, "$d" with d < rc and group d set inserts group d's text, subject[ovec[2d]..ovec[2d+1]], and the rest expands as it would on its own. |
| RegularExpression.ExpandUnsetGroup | Foundation/src/RegularExpression.cpp:264-268 | After '$'-free text, "$d" with d < rc and group d unset (ovec[2d] < 0) makes the expansion fail with std::out_of_range. |
| RegularExpression.ExpandWholeMatch | Foundation/src/RegularExpression.cpp:263-268 | "$0" inserts the whole match, subject[ovec[0]..ovec[1]], and not the original subject. |
| RegularExpression.ExpandMissingGroup | Foundation/src/RegularExpression.cpp:264 | "$d" with d >= rc inserts nothing. |
| RegularExpression.ExpandOtherDollar | Foundation/src/RegularExpression.cpp:271-275 | "$x" for a non-digit x is kept as the two characters '$', x. |
| RegularExpression.ExpandTrailingDollar | Foundation/src/RegularExpression.cpp:278 | A '$' at the end of the replacement is kept. |
| RegularExpression.SubstOneSpec | Foundation/src/RegularExpression.cpp:219-289 | An offset at or past the end, no match, or a match at the very end all give npos with the subject unchanged. Otherwise the text before the match and after it is kept, and the returned position lies between the match start and the end of the new subject. Each replacement strictly shrinks what remains after the position. |
| RegularExpression.SubstOne | Foundation/src/RegularExpression.cpp:219-289 | The copy-and-splice loop yields exactly the outcome SubstOneSpec describes. |
| RegularExpression.NotEmptyNeverDiverges | Foundation/src/RegularExpression.cpp:247-286 | Under RE_NOTEMPTY, substOne never reaches the empty-match case in which its loop does not advance. |
| RegularExpression.SubstSpec | Foundation/src/RegularExpression.cpp:199-216 | Without RE_GLOBAL the count is 0 or 1. With it, substOne repeats from the returned position. |
| RegularExpression.Subst | Foundation/src/RegularExpression.cpp:199-216 | The counting loop yields exactly SubstSpec's outcome. |
| RegularExpression.SubstFromStart | Foundation/include/Poco/RegularExpression.h:238-241 | Equals the offset-0 subst. |
| RegularExpression.SubstGlobal | Foundation/src/RegularExpression.cpp:201-211 | The RE_GLOBAL loop: substOne again from the position it returned, until it returns npos. It makes at most length - offset replacements, so it ends. |
| RegularExpression.FlagsOutsideMask | Foundation/include/Poco/RegularExpression.h:100-101 | RE_GLOBAL and RE_NO_VARS lie above 0xFFFF and never reach pcre_exec. |
| RegularExpression.GlobalSameStep | Foundation/src/RegularExpression.cpp:224 | Adding RE_GLOBAL does not change a single substOne step. |
| RegularExpression.GlobalAgreesWhenNothingReplaced | Foundation/src/RegularExpression.cpp:199-216 | When the first substOne replaces nothing, subst gives the unchanged subject and 0, with or without RE_GLOBAL. |
| RegularExpression.FullMatchExtractsRest | Foundation/src/RegularExpression.cpp:150-179 | When bool match holds, extract yields the rest of the subject from the offset. |
| RegularExpression.StaticMatch | Foundation/src/RegularExpression.cpp:292-298 | The pattern is compiled with options & ctorOptions, then matched from 0 with options & mtchOptions. A compile failure is an error. |
| RegularExpression.StaticMatchOptionSplit | Foundation/src/RegularExpression.cpp:294-295 | The match-only options never reach the constructor, and the constructor-only options never reach the match. RE_ANCHORED and RE_NO_AUTO_CAPTURE reach both. RE_GLOBAL and RE_NO_VARS reach neither. |
| LoggingRegistry.Registry.constructor | Foundation/src/LoggingRegistry.cpp:44-46 | Both maps start empty. |
| LoggingRegistry.Registry.ChannelForName | Foundation/src/LoggingRegistry.cpp:54-63 | Returns the registered channel iff the name is present. Otherwise returns NotFoundException("logging channel", name). |
| LoggingRegistry.Registry.FormatterForName | Foundation/src/LoggingRegistry.cpp:66-75 | Returns the registered formatter iff the name is present. Otherwise returns NotFoundException("logging formatter", name). |
| LoggingRegistry.Registry.RegisterChannel | Foundation/src/LoggingRegistry.cpp:78-83 | Inserts the channel or replaces the old one, and it is then found under that name. The formatter map is unchanged. |
| LoggingRegistry.Registry.RegisterFormatter | Foundation/src/LoggingRegistry.cpp:86-91 | Inserts the formatter or replaces the old one. The channel map is unchanged. |
| LoggingRegistry.Registry.UnregisterChannel | Foundation/src/LoggingRegistry.cpp:94-103 | Removes exactly that key. It throws NotFoundException iff the key was absent, and then the map is unchanged. The formatter map is untouched. |
| LoggingRegistry.Registry.UnregisterFormatter | Foundation/src/LoggingRegistry.cpp:106-115 | The same, on the formatter map. |
| LoggingRegistry.Registry.Clear | Foundation/src/LoggingRegistry.cpp:118-124 | Both maps become empty. |
| LoggingRegistry.RegisterReplaces | Foundation/src/LoggingRegistry.cpp:78-83 | A second register under a name replaces the first. Other names and the formatters are not touched. |
| LoggingRegistry.UnregisterOnce | Foundation/src/LoggingRegistry.cpp:94-103 | The first unregister succeeds and the second throws. Afterwards lookup fails, and the formatter of the same name remains. |
| LoggingRegistry.ClearForgets | Foundation/src/LoggingRegistry.cpp:118-124 | After clear, both lookups throw NotFoundException. |
| Timestamp.CDiv | Foundation/src/Timestamp.cpp:104 | C++ division by a positive number: the remainder has the sign of the dividend and is smaller than the divisor. |
| Timestamp.FromEpochTime | Foundation/src/Timestamp.cpp:95-98 | t * 1000000 microseconds, equal to it whenever it fits in Int64, and congruent to it mod 2^64. |
| Timestamp.FromEpochTimeSeconds | Foundation/src/Timestamp.cpp:95-98 | A converted epoch time is a whole number of seconds, and dividing by the resolution gives t back. |
| Timestamp.FromUtcTime | Foundation/src/Timestamp.cpp:101-106 | (v - 0x01B21DD213814000) / 10, rounded toward zero on both sides of the epoch. |
| Timestamp.UtcRoundTrip | Foundation/src/Timestamp.cpp:101-106 | fromUtcTime(ts * 10 + epoch) == ts. |
| Timestamp.FromUtcTimeTruncates | Foundation/src/Timestamp.cpp:103-104 | 15 ticks before the UNIX epoch give -1, and 15 ticks after give 1. The conversion rounds toward the epoch on both sides. |
| Timestamp.FromFileTimeNP | Foundation/src/Timestamp.cpp:139-151 | ((high * 2^32 + low) - 0x019DB1DED53E8000) mod 2^64, divided by 10. |
| Timestamp.Timestamp.constructor | Foundation/src/Timestamp.cpp:58-61 | Holds the given value. |
| Timestamp.Timestamp.Copy | Foundation/src/Timestamp.cpp:64-67 | Holds the other timestamp's value. |
| Timestamp.Timestamp.Assign | Foundation/src/Timestamp.cpp:75-79 | Takes the other timestamp's value and leaves the other unchanged. |
| Timestamp.Timestamp.AssignValue | Foundation/src/Timestamp.cpp:82-86 | Takes the given value. |
| Timestamp.Timestamp.Swap | Foundation/src/Timestamp.cpp:89-92 | Exchanges the two values. |
| Timestamp.Timestamp.ToFileTimeNP | Foundation/src/Timestamp.cpp:154-165 | high * 2^32 + low == (ts * 10 + 0x019DB1DED53E8000) mod 2^64. |
| Timestamp.FileTimeRoundTrip | Foundation/src/Timestamp.cpp:139-165 | fromFileTimeNP of toFileTimeNP's words gives ts back whenever 0 <= ts * 10 < 2^64. |
| Timestamp.FileTimeBeforeEpoch | Foundation/src/Timestamp.cpp:148-150 | A timestamp of -1 comes back as 1844674407370955160, because of the unsigned subtraction. |
| UnicodeConverter.DecodeStep | Foundation/src/UnicodeConverter.cpp:73-97 | Decoding proceeds one loop step at a time, and every step moves forward. |
| UnicodeConverter.DecodeFromIsDecode | Foundation/src/UnicodeConverter.cpp:73-97 | Stepping from a position decodes the remaining bytes. |
| UnicodeConverter.ToUtf16 | Foundation/src/UnicodeConverter.cpp:62-98 | The output is cleared, then it is exactly the decoding of the first length bytes. A length of 0 or less gives "". |
| UnicodeConverter.Strlen | Foundation/src/UnicodeConverter.cpp:103 | The index of the first zero byte. |
| UnicodeConverter.ToUtf16CString | Foundation/src/UnicodeConverter.cpp:101-104 | Converts exactly the bytes before the terminating zero. |
| UnicodeConverter.Decode | Foundation/src/UnicodeConverter.cpp:73-97 | The characters the loop emits. Each step emits one character, so there are at most as many characters as bytes, and at least one for non-empty input. |
| UnicodeConverter.DecodeSingleBytes | Foundation/src/UnicodeConverter.cpp:82-86 | Bytes mapped to n >= 0 each give n. |
| UnicodeConverter.DecodeInvalid | Foundation/src/UnicodeConverter.cpp:78-81 | Bytes mapped to -1 each give '?'. |
| UnicodeConverter.DecodeTruncated | Foundation/src/UnicodeConverter.cpp:87-95 | A sequence that runs past the end gives a single '?' and ends the output. |
| UnicodeConverter.DecodeSequence | Foundation/src/UnicodeConverter.cpp:87-95 | A whole k-byte sequence gives convert's value, or '?' for -1, and decoding continues after its k bytes. |
| NumberFormatter.DigitsIn | Foundation/testsuite/src/NumberFormatterTest.cpp:56-57 | At least one digit, all of them below the base, no leading zero, and "0" exactly for 0. |
| NumberFormatter.DigitsRoundTrip | Foundation/testsuite/src/NumberFormatterTest.cpp:56-57 | Reading the digits back in the same base gives the number. |
| NumberFormatter.FormatRoundTrip | Foundation/testsuite/src/NumberFormatterTest.cpp:113-114 | Decimal and hexadecimal text read back as the magnitude and the value. |
| NumberFormatter.Format | Foundation/testsuite/src/NumberFormatterTest.cpp:56-57 | Non-empty, and it starts with '-' iff the value is negative. |
| NumberFormatter.FormatWidth | Foundation/testsuite/src/NumberFormatterTest.cpp:58-61 | At least width characters: spaces, then the unpadded text, so the sign counts toward the width. |
| NumberFormatter.Format0 | Foundation/testsuite/src/NumberFormatterTest.cpp:95-108 | At least width characters: the sign, then zeros, then the digits. |
| NumberFormatter.FormatHex | Foundation/testsuite/src/NumberFormatterTest.cpp:113-114 | Non-empty, uppercase hexadecimal digits only, with no prefix. |
| NumberFormatter.FormatHexWidth | Foundation/testsuite/src/NumberFormatterTest.cpp:115-116 | At least width characters: zeros, then the hexadecimal digits. |
| NumberFormatter.NarrowWidthAddsNothing | Foundation/testsuite/src/NumberFormatterTest.cpp:56-61 | A width the decimal text already fills adds nothing, to format or to format0. |
| NumberFormatter.NarrowHexWidthAddsNothing | Foundation/testsuite/src/NumberFormatterTest.cpp:113-116 | A width the hexadecimal text already fills adds nothing. |
| NumberFormatter.FormatCases | Foundation/testsuite/src/NumberFormatterTest.cpp:54-78 | 123 gives "123", and -123 gives "-123". The model has one `int` for every integer type, so this covers the int, long and Int64 cases alike. |
| NumberFormatter.FormatWidthCases | Foundation/testsuite/src/NumberFormatterTest.cpp:58-77 | (-123, 5) gives " -123", and (123, 5) gives "  123". |
| NumberFormatter.Format0Cases | Foundation/testsuite/src/NumberFormatterTest.cpp:95-108 | (123, 5) gives "00123", and (-123, 5) gives "-0123". |
| NumberFormatter.FormatHexCases | Foundation/testsuite/src/NumberFormatterTest.cpp:111-144 | 0x12 gives "12" and 0xab gives "AB". At width 4 they give "0012" and "00AB". |

## Left out

- PCRE itself, that is pcre_compile, pcre_study, pcre_exec and pcre_free. It is a foreign C library, so it is a parameter constrained by `Sound`. The RegularExpression constructor appears only through the `compile` parameter of `StaticMatch`.
- The text of exception messages ("bad option", "PCRE error <rc>", the compile error with its offset) is not modelled. Each message is a constructor of `RegexError`.
- PCRE_ERROR_NOMATCH is -1 and PCRE_ERROR_BADOPTION is -3, taken from PCRE, whose header is not part of this model.
- RegularExpression.SubstOne: where the match is empty and starts before the end, the source's loop does not advance. With an empty expansion it never ends; with a non-empty one the result grows until allocation fails. The model returns `Err(Diverges)` at that point instead.
- RegularExpression.MatchOne: the source's `poco_assert(offset <= subject.length())` (Foundation/src/RegularExpression.cpp:74 and :106) is a precondition `offset <= |subject|`. The AssertionViolationException it raises is not modelled.
- RegularExpression.MatchAll: the same precondition replaces the same `poco_assert`.
- RegularExpression.Exec: the `int(subject.size())` and `int(offset)` casts (Foundation/src/RegularExpression.cpp:77, :111 and :224) are not modelled. Subjects longer than INT_MAX are outside the model.
- Foundation/include/Poco/RegularExpression.h:191 says that "$0" is the original subject, and line 201 that it is the captured substring. The code (Foundation/src/RegularExpression.cpp:263-268) inserts the captured substring, and the model follows the code (`ExpandWholeMatch`).
- RegularExpression.Subst: when a later substOne throws under RE_GLOBAL, the source has already rewritten the subject. The model returns only the error.
- RegularExpression.MatchesWith: the if-and-only-if is stated for subjects shorter than npos, the only ones that exist in practice.
- The Redis wire encoding (RESP), RedisSocket, connect and disconnect, addresses and timeouts are left out. They are network I/O, and their code is not part of this model.
- RedisClient.Client.ReadReply: requires an outstanding reply. The source puts that duty on the caller, and a read with nothing outstanding would block on the socket.
- RedisClient.Client.SendCommands: the replies come back as a sequence rather than a Redis Array object.
- Redis values of the Array type are kept as nested replies. The `Type<T>` wrappers and the casts are not modelled.
- The LoggingRegistry mutex and the `defaultRegistry` singleton are left out, because they are locking and process-wide state. The reference-counted pointers become plain values.
- `Timestamp::update` and the default constructor read the system clock, so they are not modelled.
- Timestamp.FromEpochTime: signed 64-bit overflow is undefined behaviour in C++. It is modelled as two's-complement wrap-around.
- Timestamp.FromUtcTime: the signed subtraction `val -= epoch` can overflow too, below -2^63 + 0x01B21DD213814000. It is also modelled as wrap-around.
- Timestamp.FileTimeRoundTrip: holds only for 0 <= ts * 10 < 2^64. `FileTimeBeforeEpoch` shows what happens to a timestamp before 1970.
- UnicodeConverter.ToUtf16: `convert` is given only the bytes of one sequence.
- UnicodeConverter.ToUtf16: the input is a byte sequence, so the null-pointer check `poco_check_ptr(utf8String)` (Foundation/src/UnicodeConverter.cpp:64) has no counterpart.
- UnicodeConverter.ToUtf16: the cast of each character to a 16-bit `wchar_t` on Windows is not modelled. Characters are kept as `int`, as with a 32-bit `wchar_t`.
- UnicodeConverter.ToUtf16CString: a `strlen` above INT_MAX, which the `(int)` cast would wrap, is not modelled.
- UnicodeConverter's `toUTF8` functions and its `std::string` overload of `toUTF16` are left out. They delegate to TextConverter and TextIterator, which are not part of this model.
- The NumberFormatter implementation is not part of this model, so its functions are built from the tests' expectations.
- NumberFormatter.FormatHex: the formatting of negative values, which the C++ overloads print as two's complement, is not modelled. Only non-negative values are modelled.
- NumberFormatter's floating-point and pointer formatting are left out (Foundation/testsuite/src/NumberFormatterTest.cpp:80-91). They involve floating point and depend on the architecture.
