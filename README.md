# Router, memory cache, file and mail helpers of the Flame library

This project models, in Dafny, five pieces of Flame (the `Igniter\Flame` PHP
framework layer, partly adapted from October Rain) and proves properties about
them.

- **URL-pattern grammar of the router** (`src/Support/RouterHelper.php`). It
  normalizes a URL (one leading `/`, one trailing `/` removed), splits it into
  non-empty segments, and rebuilds a URL from segments. It also classifies a
  pattern token such as `:id?5|^[0-9]+$` into its parts:
  - the parameter name;
  - whether it is optional;
  - whether it is a wildcard;
  - the regular-expression constraint;
  - the default value.
- **A router rule** (`src/Router/Rule.php`), modelled as the class
  `Router.Rule`.
  - The constructor counts the pattern's static, dynamic and wildcard segments
    and builds the static URL.
  - `resolveUrl` matches a concrete URL segment by segment and fills the
    parameter map.
  - `captureWildcardSegments` cuts out the segments a wildcard absorbs.
  - `name()`, `pattern()`, `condition()` and `afterMatch()` read or replace the
    rule's settings.
- **The query memory cache** (`src/Database/MemoryCache.php`), modelled as the
  class `Database.MemoryCache`. It keeps results in memory under a query hash,
  plus an index from table names to the hashes stored for each table. A write to
  a table can then forget them. The invariant kept by every operation: every
  cached hash is listed under some table.
- **The pure helpers of the file helper** (`src/Filesystem/Filesystem.php`):
  - separator normalization;
  - path symbols (`$`, `~`, …) that stand for a base directory;
  - glob matching of file names (`*`, `?`, case-insensitive);
  - the octal permission masks.
- **The argument normalisers of the mailer** (`src/Mail/Mailer.php`).
  `parseView` sorts a view argument into its html, text and raw parts.
  `processRecipients` folds the accepted recipient shapes into an
  `address => name` array. PHP values are modelled by the datatype `Mail.Value`.

Where the PHP changes state step by step, the model does too:
- The rule and the cache are classes whose methods update their fields.
- The PHP loops (segment counting, wildcard capture, the URL comparison loop,
  `forget`, the recipient loop, and the split and rebuild helpers) are methods
  with loops. `normalizeUrl` has no loop and is the function
  `RouterHelper.Normalized`.

Each of those methods is proved equal to a specification function. The
properties are proved about that function.

Some PHP semantics are modelled explicitly because the code depends on them:
- the loose `==` between strings that look like integers (`"01" == "1"`);
- PHP truthiness (`""` and `"0"` are false);
- PHP's array-key conversion (`"12"` becomes the integer key 12, `true` becomes 1);
- `isset` versus `array_get` versus `??`;
- `mb_substr` with a negative length;
- `octdec` skipping characters that are not octal digits;
- PCRE's `.` not matching a newline, and `$` also matching before a final
  newline.

Behaviour of the code that the model follows, where a reader might expect
otherwise:
- **`normalizeUrl` strips only one trailing `/`, so it is not idempotent.**
  `"/a//"` becomes `"/a/"`, and normalizing again gives `"/a"`. The lemma
  `RouterHelper.NormalizedIdempotentIff` states exactly when a second pass
  changes the URL.
- **A wildcard token without `?` is required.** `/files/:path*` does not match
  `/files`. Only segments whose token carries `?` before any `|` are optional,
  and only when every later segment is optional too.
- **`segmentIsOptional` does not check the leading `:`.** A static segment
  containing `?` counts as optional in the "no required segment follows" test.
- **Static segments compare with PHP's loose `!=`.** Two segments that both look
  like integers match when their values are equal (`"01"` and `"1"`).
- **`getSegmentDefaultValue` can take text from the constraint.** When the first
  `|` comes before the first `?`, it calls `mb_substr` with a negative length,
  and the default value can then include characters of the regular expression
  (`RouterHelper.DefaultValueRegexBeforeOptional`).
- **An array recipient with an empty `email` is skipped, while an object
  recipient falls back to its `address`.** `array_get` returns a present
  `email` key even when it is empty; the object path uses `empty()`
  (`Mail.ArrayEmailShadowsAddress`).
- **Loose equality stops at PHP_INT_MAX.** `"09223372036854775808"` and
  `"9223372036854775808"` have the same value, yet PHP 8 compares them as
  strings because the value overflows (`Text.LooseEqualsIntMaxExample`).
- **An array recipient whose `email` is TRUE is stored under the key 1**, as
  PHP turns a boolean key into an integer (`Mail.TrueAddressIsKeyOne`).
- **A numeric address becomes an integer key.** PHP stores `"42"` under the
  key 42, so it overwrites a recipient listed at index 42
  (`Mail.NumericAddressCollides`).
- **A path symbol `"0"` is never expanded**, because PHP reads the string `"0"`
  as false (`FilesystemHelpers.SymbolZeroIgnored`).

## Model

Rows whose third column starts with "example:" name lemmas that show a
statement on concrete inputs; the general properties are in the other rows.

| member | source | states |
|---|---|---|
| Text.Find | src/Support/RouterHelper.php:138-143 | mb_strpos for one character: None exactly when the character is absent, otherwise the first index holding it |
| Text.FromSplits | src/Support/RouterHelper.php:136 | mb_substr from a start inside the string gives the rest of it: the skipped prefix followed by the result is the whole input, and the result has the remaining length |
| Text.SubstrLen | src/Support/RouterHelper.php:230-233 | mb_substr with a length: a non-negative length takes that many characters; a negative length stops that many characters before the end, or gives "" |
| Text.Lower | src/Router/Rule.php:125-133 | lower-casing keeps the length, leaves no upper-case letter, keeps every other character, and turns each upper-case letter into its lower-case partner |
| Text.LowerIdempotent | src/Router/Rule.php:125-133 | lower-casing a lower-cased string changes nothing |
| Text.LowerIgnoresCase | src/Router/Rule.php:125-133 | example: "Blog" and "BLOG" both lower-case to "blog", so the static comparison ignores case |
| Text.TrimLeft | src/Support/RouterHelper.php:67 | trim's left half: a suffix of the input that starts without white space, and the input itself when it starts without white space |
| Text.TrimLeftSpace | src/Support/RouterHelper.php:67 | everything trim's left half removes is white space |
| Text.TrimRight | src/Support/RouterHelper.php:67 | trim's right half: a prefix of the input that ends without white space, and the input itself when it ends without white space |
| Text.TrimRightSpace | src/Support/RouterHelper.php:67 | everything trim's right half removes is white space |
| Text.Trim | src/Support/RouterHelper.php:67 | trim's result is trimmed, and a trimmed string is left unchanged |
| Text.TrimPaddedExample | src/Support/RouterHelper.php:67 | example: trim(" post") is "post" and trim("blog") is "blog" |
| Text.TrimDropsBlank | src/Support/RouterHelper.php:67 | example: trim(" post") is "post" |
| Text.TrimKeepsWord | src/Support/RouterHelper.php:67 | example: trim("blog") is "blog" |
| Text.TrimSlice | src/Support/RouterHelper.php:67 | trim's result is a contiguous slice of the input, and every character before and after that slice is white space |
| Text.TrimWithout | src/Support/RouterHelper.php:67 | trim adds no character, so a character the input lacks stays out |
| Text.Explode | src/Support/RouterHelper.php:44 | explode always gives at least one piece |
| Text.ExplodePieces | src/Support/RouterHelper.php:44 | no piece of explode holds the separator |
| Text.ImplodeExplode | src/Support/RouterHelper.php:44 | implode undoes explode for every string |
| Text.ExplodeAppend | src/Support/RouterHelper.php:44 | a separator followed by a separator-free piece adds exactly that piece |
| Text.ExplodeNoSeparator | src/Support/RouterHelper.php:44 | a string without the separator explodes to itself |
| Text.NonEmpty | src/Support/RouterHelper.php:46-51 | the filter keeps at most as many pieces as it is given |
| Text.NonEmptyAppend | src/Support/RouterHelper.php:46-51 | filtering distributes over concatenation |
| Text.NonEmptyKeeps | src/Support/RouterHelper.php:46-51 | the kept pieces are non-empty and free of a separator that no input piece holds |
| Text.NonEmptyAll | src/Support/RouterHelper.php:46-51 | pieces that are all non-empty pass unchanged |
| Text.LooseEquals | src/Router/Rule.php:133 | PHP 8's loose `==` between two strings, both directions: equal strings are equal; two integer strings within the 64-bit integer range with the same value are equal; and different strings are equal only in that case |
| Text.LooseEqualsReflexive | src/Router/Rule.php:133 | every segment loosely equals itself |
| Text.LooseEqualsLeadingZero | src/Router/Rule.php:133 | example: "01" loosely equals "1" although the strings differ |
| Text.LooseEqualsBeyondIntMax | src/Router/Rule.php:133 | two different integer strings one of which exceeds PHP_INT_MAX are not loosely equal, because PHP then compares them as strings |
| Text.LooseEqualsIntMaxExample | src/Router/Rule.php:133 | example: "09223372036854775808" and "9223372036854775808" have the same value, PHP_INT_MAX + 1, and still are not loosely equal |
| RouterHelper.Normalized | src/Support/RouterHelper.php:18-33 | the result starts with '/'; "" and "/" become "/"; a URL that starts with '/' and does not end with '/' comes back unchanged; a longer URL that starts and ends with '/' loses exactly its last character; a URL without a leading '/' gains one, and loses one trailing '/' if it has one |
| RouterHelper.NormalizedIdempotentIff | src/Support/RouterHelper.php:24-26 | normalizing a normalized URL changes it again exactly when it is not "/" and still ends with '/' |
| RouterHelper.NormalizedStripsOneSlash | src/Support/RouterHelper.php:24-26 | example: "/a//" normalizes to "/a/" and "/a/" to "/a": only one trailing slash goes per call |
| RouterHelper.SegmentizeUrl | src/Support/RouterHelper.php:41-54 | the loop's segments are the non-empty pieces of the normalized URL, each non-empty and free of '/' |
| RouterHelper.NormalizedKeepsSegments | src/Support/RouterHelper.php:41-54 | normalizing first does not change the non-empty segments of a URL |
| RouterHelper.LeadingSlashKeepsSegments | src/Support/RouterHelper.php:20-22 | adding the leading '/' does not change the non-empty segments |
| RouterHelper.TrailingSlashKeepsSegments | src/Support/RouterHelper.php:24-26 | removing a trailing '/' does not change the non-empty segments |
| RouterHelper.SegmentizedRoot | src/Support/RouterHelper.php:28-30 | "/" and "" have no segments |
| RouterHelper.RebuildUrl | src/Support/RouterHelper.php:62-72 | the loop builds the normalized join of the trimmed non-empty segments, which starts with '/' |
| RouterHelper.TrimAll | src/Support/RouterHelper.php:67 | trimming every segment keeps their number |
| RouterHelper.JoinedSegments | src/Support/RouterHelper.php:62-69 | splitting the joined text gives back the trimmed segments that are not empty |
| RouterHelper.JoinedStep | src/Support/RouterHelper.php:65-68 | one loop step of rebuildUrl adds exactly the trimmed segment to the segments it splits into |
| RouterHelper.TrimAllSnoc | src/Support/RouterHelper.php:65-68 | trimming a list with one more segment adds that segment trimmed |
| RouterHelper.JoinedSnoc | src/Support/RouterHelper.php:65-68 | a non-empty segment appends '/' and its trimmed text; an empty one appends nothing |
| RouterHelper.SegmentizeRebuild | src/Support/RouterHelper.php:41-72 | segmentizing a rebuilt URL gives the trimmed, non-empty segments |
| RouterHelper.TrimAllPaddedExample | src/Support/RouterHelper.php:62-72 | example: segmentizeUrl's trimming turns "blog" and " post" into "blog" and "post" |
| RouterHelper.SegmentizeRebuildRoundTrip | src/Support/RouterHelper.php:41-72 | non-empty, '/'-free, trimmed segments survive rebuildUrl followed by segmentizeUrl |
| RouterHelper.TrimAllTrimmed | src/Support/RouterHelper.php:67 | trimmed segments are left as they are |
| RouterHelper.RebuiltRoot | src/Support/RouterHelper.php:62-72 | no segments, or only empty ones, rebuild to "/" |
| RouterHelper.JoinedEmpty | src/Support/RouterHelper.php:64-69 | empty segments add nothing to the accumulated text |
| RouterHelper.SegmentIsWildcard | src/Support/RouterHelper.php:124-127 | the wildcard test; its properties are stated by WildcardShape, WildcardParameterName and WildcardExample |
| RouterHelper.WildcardShape | src/Support/RouterHelper.php:124-127 | a segment is a wildcard exactly when it has at least two characters, starts with ':' and ends with '*'; a wildcard holds '*' after its first character |
| RouterHelper.WildcardParameterName | src/Support/RouterHelper.php:160-174 | the name of a wildcard without '?' is the text between ':' and its first '*', which follows the name directly |
| RouterHelper.WildcardExample | src/Support/RouterHelper.php:124-174 | example: ":path*" is a wildcard, is not optional and names the parameter "path" |
| RouterHelper.SegmentIsOptional | src/Support/RouterHelper.php:134-153 | optional exactly when, after the first character, some '?' has no '|' before it |
| RouterHelper.GetParameterName | src/Support/RouterHelper.php:160-193 | the name is a prefix of the token after its first character; without '*' it stops at the first '?' or '|' and holds neither; with '*' it stops at the first '?', or else at the first '*' |
| RouterHelper.GetSegmentRegExp | src/Support/RouterHelper.php:200-212 | None exactly when there is no '|' or nothing follows the first one; otherwise the text after the first '|' wrapped in '/' |
| RouterHelper.GetSegmentDefaultValue | src/Support/RouterHelper.php:219-240 | FALSE without '?'; never an empty string; with '?' before the first '|', the text between them; without '|' but with a later '*', the text between '?' and '*'; with neither, the text after '?' |
| RouterHelper.DefaultValueRegexBeforeOptional | src/Support/RouterHelper.php:229-230 | with the first '|' before the first '?', the default runs from after the '?' to opt-regex+1 characters before the end |
| RouterHelper.DefaultTextNegativeLength | src/Support/RouterHelper.php:230 | the mb_substr call with a negative length, in closed form |
| RouterHelper.DefaultValueWildBeforeOptional | src/Support/RouterHelper.php:232-233 | without '|' and with the first '*' before the first '?', the default runs from after the '?' to opt-wild+1 characters before the end |
| RouterHelper.DefaultTextWildNegativeLength | src/Support/RouterHelper.php:233 | the mb_substr call of the '*' case with a negative length, in closed form |
| Router.StaticSegments | src/Router/Rule.php:75-80 | there are never more static segments than segments |
| Router.CountsPartition | src/Router/Rule.php:76-88 | static plus dynamic segments are all the segments, and no more wildcards than dynamic segments |
| Router.CountsSnoc | src/Router/Rule.php:76-88 | one loop step adds the segment to exactly one of the counters, and to the wildcard count when it is a dynamic wildcard |
| Router.StaticSegmentsAllStatic | src/Router/Rule.php:75-80 | a pattern without dynamic segments is its own static part, with no dynamic segment |
| Router.StaticSegmentsAreStatic | src/Router/Rule.php:75-80 | every static segment is a segment of the pattern and not dynamic |
| Router.StaticUrlSegments | src/Router/Rule.php:90 | the static URL splits back into the static segments trimmed, without those that trim to nothing; when every segment is non-empty and trimmed, it splits back into exactly the static segments |
| Router.StaticUrlTrimsExample | src/Router/Rule.php:90 | example: the pattern segments "blog" and " post" give a static URL that splits back into "blog" and "post" |
| Router.PaddedSegmentsStatic | src/Router/Rule.php:75-80 | example: the segments "blog" and " post" are both static and kept as they are |
| Router.CountSegments | src/Router/Rule.php:75-88 | the constructor's loop collects the static segments and counts the dynamic and wildcard ones, which partition the pattern |
| Router.NoRequiredAfter | src/Router/Rule.php:153-160 | the inner loop answers true exactly when every later pattern segment is optional |
| Router.Derive | src/Router/Rule.php:75-90 | the counters and the static URL agree with the segments, and static plus dynamic is the segment count |
| Router.Rule.constructor | src/Router/Rule.php:66-91 | the name and pattern are stored, the segments are those of the pattern (non-empty, '/'-free), the counters and static URL agree with them, and no callback is set |
| Router.WildcardIndex | src/Router/Rule.php:227-243 | the first wildcard among the pattern segments the loop visits, or none when there is none |
| Router.Capture | src/Router/Rule.php:219-249 | the specification of captureWildcardSegments; its properties are stated by CaptureSlices |
| Router.CaptureSlices | src/Router/Rule.php:219-249 | the capture takes at most the URL's excess over the pattern, right after the wildcard and in order; what remains is the URL without that slice, no longer than the pattern once the wildcard is reached |
| Router.Rule.CaptureWildcardSegments | src/Router/Rule.php:219-249 | the loop returns the absorbed segments and the re-indexed remaining segments of the closed-form capture |
| Router.CaptureDone | src/Router/Rule.php:227-246 | the state the capture loop stops in gives the closed-form capture |
| Router.CaptureDoneWild | src/Router/Rule.php:228-236 | a loop that ends in wild mode has taken exactly the excess segments after the wildcard |
| Router.CaptureDoneNone | src/Router/Rule.php:239-246 | a loop that never meets a wildcard takes nothing and keeps the URL |
| Router.WildcardIndexStep | src/Router/Rule.php:239-242 | visiting one more URL index looks at one more pattern segment |
| Router.WildcardIndexStable | src/Router/Rule.php:228-237 | once wild mode is on, later indices keep the same wildcard |
| Router.MissingParamValue | src/Router/Rule.php:166-170 | a dynamic segment the URL leaves out takes FALSE exactly when its token has no default, and otherwise a non-empty default from a token holding '?' |
| Router.ResolveFromAccepts | src/Router/Rule.php:124-209 | the comparison loop accepts exactly when every remaining pattern segment accepts its URL segment |
| Router.Resolve | src/Router/Rule.php:99-210 | the specification of resolveUrl; its properties are stated by ResolveAccepts and ResolveFromParams |
| Router.ResolveAccepts | src/Router/Rule.php:99-210 | a URL matches exactly when, after the wildcard capture, it has no more segments than the pattern and every pattern segment accepts it |
| Router.StepStatic | src/Router/Rule.php:127-136 | a static segment fails the match on a missing or loosely different URL segment and moves on otherwise |
| Router.StepDynamic | src/Router/Rule.php:138-205 | a dynamic segment resets its parameter to FALSE, then takes the default, fails, or takes the URL segment (with the absorbed segments for the wildcard) |
| Router.ResolveFromParams | src/Router/Rule.php:142-205 | on a match the parameter map has one key per dynamic segment's name, and the last segment with a name decides its value |
| Router.LastNamedNotLater | src/Router/Rule.php:142-143 | the name of the last segment with that name is not among the later names |
| Router.NamesFrom | src/Router/Rule.php:142-143 | every name set from an index on belongs to a dynamic segment at or after it |
| Router.KeptWhenNotLater | src/Router/Rule.php:142-205 | a parameter that no later dynamic segment sets keeps its value |
| Router.Rule.ResolveUrl | src/Router/Rule.php:99-210 | the method's answer and parameter map are those of the specification Resolve, including the parameters left behind when it stops early |
| Router.Rule.Name | src/Router/Rule.php:257-266 | without an argument returns the name; with one, sets it and returns the rule; nothing else changes |
| Router.Rule.Pattern | src/Router/Rule.php:274-283 | without an argument returns the pattern; with one, sets it (without re-segmenting) and returns the rule; nothing else changes |
| Router.Rule.Condition | src/Router/Rule.php:292-308 | without an argument returns the callback; a callable is stored; anything else is an InvalidArgumentException naming its type, with no change |
| Router.Rule.AfterMatch | src/Router/Rule.php:317-333 | as condition(), for the after-match callback, with its own message |
| Router.InvalidCallbackMessage | src/Router/Rule.php:296-299 | the message is the text, then ". Given (", then the type name, then ")" |
| Database.Without | src/Database/MemoryCache.php:110-112 | the cache without the listed hashes: exactly the other keys, with their values |
| Database.ForgetKeepsIndexed | src/Database/MemoryCache.php:104-115 | dropping a table's hashes and its entry keeps every remaining hash listed |
| Database.PutKeepsIndexed | src/Database/MemoryCache.php:85-96 | storing a hash and listing it under its table keeps every hash listed |
| Database.MemoryCache.constructor | src/Database/MemoryCache.php:19-36 | a new cache is empty, enabled, and keeps the index invariant |
| Database.MemoryCache.Enabled | src/Database/MemoryCache.php:43-50 | a given value sets the flag; the flag is returned; the cached data stays |
| Database.MemoryCache.Has | src/Database/MemoryCache.php:58-61 | true only when the cache is on, and then exactly when the query's hash is cached |
| Database.MemoryCache.Get | src/Database/MemoryCache.php:58-76 | results exactly when the cache is on and holds the query's hash, and then the stored results; null when disabled |
| Database.MemoryCache.Put | src/Database/MemoryCache.php:85-96 | disabled: nothing changes; enabled: the results are stored under the hash, which is appended to the table's list, and the query is then found |
| Database.MemoryCache.Forget | src/Database/MemoryCache.php:104-115 | every hash listed for the table is dropped, the table's entry goes, no query listed there is found any more, and a table without an entry changes nothing |
| Database.MemoryCache.Flush | src/Database/MemoryCache.php:121-125 | both maps are emptied, the flag stays |
| FilesystemHelpers.NormalizePath | src/Filesystem/Filesystem.php:205-208 | same length, no backslash left, every backslash replaced by '/' and every other character kept |
| FilesystemHelpers.NormalizePathIdempotent | src/Filesystem/Filesystem.php:205-208 | normalizing twice is normalizing once |
| FilesystemHelpers.NormalizePathKeeps | src/Filesystem/Filesystem.php:205-208 | a path without backslashes is unchanged |
| FilesystemHelpers.IsPathSymbol | src/Filesystem/Filesystem.php:233-241 | the first character is returned exactly when it is a known symbol, and FALSE otherwise |
| FilesystemHelpers.SymbolizePath | src/Filesystem/Filesystem.php:217-226 | the specification of symbolizePath; its properties are stated by SymbolizePathExpands, SymbolizePathWithout and SymbolZeroIgnored |
| FilesystemHelpers.SymbolizePathExpands | src/Filesystem/Filesystem.php:217-226 | a known symbol (other than "0") is replaced by its directory |
| FilesystemHelpers.SymbolizePathWithout | src/Filesystem/Filesystem.php:219-221 | without a usable symbol the path comes back when no default is given, the default otherwise |
| FilesystemHelpers.SymbolZeroIgnored | src/Filesystem/Filesystem.php:219 | a path starting with a "0" symbol is never expanded |
| FilesystemHelpers.FileNameMatch | src/Filesystem/Filesystem.php:411-420 | the specification of fileNameMatch; its properties are stated by FileNameMatchIsGlob and the GlobMatch lemmas |
| FilesystemHelpers.GlobMatchItself | src/Filesystem/Filesystem.php:413-419 | every name matches itself as a glob |
| FilesystemHelpers.FileNameMatchIsGlob | src/Filesystem/Filesystem.php:411-420 | fileNameMatch answers as its anchored case-insensitive regular expression alone does, so the identity test never changes the answer |
| FilesystemHelpers.GlobMatchLiteral | src/Filesystem/Filesystem.php:417-419 | a pattern without '*' or '?' matches exactly the names equal to it ignoring ASCII case |
| FilesystemHelpers.GlobMatchStar | src/Filesystem/Filesystem.php:417-419 | "*" matches exactly the names without a newline |
| FilesystemHelpers.GlobMatchQuestion | src/Filesystem/Filesystem.php:417-419 | "?" matches exactly one character that is not a newline |
| FilesystemHelpers.OctDec | src/Filesystem/Filesystem.php:390 | octdec; its properties are stated by OctDecSkips, OctDecOctal and OctDecMasks |
| FilesystemHelpers.OctDecSkips | src/Filesystem/Filesystem.php:390 | octdec reads the octal digits of the string and ignores every other character |
| FilesystemHelpers.Octal | src/Filesystem/Filesystem.php:390 | the octal notation of a number is non-empty and made of octal digits |
| FilesystemHelpers.OctDecOctal | src/Filesystem/Filesystem.php:390 | octdec reads back every number written in octal |
| FilesystemHelpers.OctDecMasks | src/Filesystem/Filesystem.php:390 | example: "777", "755" and "644" are 511, 493 and 420 |
| FilesystemHelpers.GetFilePermissions | src/Filesystem/Filesystem.php:387-392 | null exactly when the mask is null, "" or "0"; otherwise the octal value of the mask |
| FilesystemHelpers.GetFolderPermissions | src/Filesystem/Filesystem.php:398-403 | null exactly when the mask is null, "" or "0"; otherwise the octal value of the mask |
| Mail.Lookup | src/Mail/Mailer.php:521-539 | an array read: None exactly when no entry has the key, otherwise the value of an entry with that key |
| Mail.ArrayKey | src/Mail/Mailer.php:330-359 | PHP's array-key coercion: an array or object is an illegal offset, null becomes the key "", FALSE and TRUE become 0 and 1, integers are keys as they are, and strings are converted by StringKey |
| Mail.StringKey | src/Mail/Mailer.php:330-351 | a string becomes an integer key exactly when it is the canonical decimal form of an integer within the 64-bit range, and then its value; any other string stays a string key |
| Mail.StringKeyInjective | src/Mail/Mailer.php:330-351 | the string-key conversion merges no two strings: different strings give different keys |
| Mail.IntegerKeyInjective | src/Mail/Mailer.php:330-351 | two integer-key strings with the same value are the same string |
| Mail.StringKeyExamples | src/Mail/Mailer.php:330-351 | examples: "12", "-7" and "0" become integer keys; "012", "-0", "+1" and "1.5" stay strings |
| Mail.ParseView | src/Mail/Mailer.php:512-544 | a string is (view, null, null); an array with index 0 set is (view[0], view[1], null); another array gives its html part; any other value is the "Invalid view." exception |
| Mail.ParseViewRawIsFlag | src/Mail/Mailer.php:512-544 | the raw part of a parsed view is only ever null or TRUE |
| Mail.ParseViewRawMovesToText | src/Mail/Mailer.php:531-534 | a set raw part becomes the text, which is then not null, and the flag becomes TRUE |
| Mail.ParseViewNamedParts | src/Mail/Mailer.php:528-540 | without raw, the parts are html ?? null, text ?? null and null; a missing html is null |
| Mail.ObjectRecipient | src/Mail/Mailer.php:338-344 | skipped exactly when email and address are both empty; otherwise the email when not empty, else the address; the name when not empty, else null |
| Mail.ArrayRecipient | src/Mail/Mailer.php:347-351 | a present email key decides (even when empty), otherwise the address; skipped exactly when that value reads as false; the name as stored, or null |
| Mail.EntryRecipient | src/Mail/Mailer.php:334-352 | what one entry adds; its only failure is the illegal offset |
| Mail.EntryRecipientErrIff | src/Mail/Mailer.php:344-351 | one entry fails, with the illegal offset, exactly when its address is an array or an object |
| Mail.Collect | src/Mail/Mailer.php:333-353 | the foreach loop as a fold; its only failure is the illegal offset |
| Mail.CollectIllegalAddress | src/Mail/Mailer.php:333-353 | the loop fails exactly when some entry's address is an array or an object |
| Mail.Recipients | src/Mail/Mailer.php:325-364 | processRecipients; it fails only with the illegal offset, and only for an array or an object |
| Mail.TrueAddressIsKeyOne | src/Mail/Mailer.php:347-351 | example: an array recipient whose email is TRUE is stored under the integer key 1 |
| Mail.ProcessRecipients | src/Mail/Mailer.php:325-364 | the method's loop gives exactly the specification Recipients, including the first illegal-offset failure |
| Mail.CollectErrStays | src/Mail/Mailer.php:333-353 | once the loop has failed, later entries cannot undo it |
| Mail.CollectErrIff | src/Mail/Mailer.php:333-353 | the loop fails exactly when some entry has an illegal address |
| Mail.CollectKeysFromEntries | src/Mail/Mailer.php:333-353 | every key of the result was stored by some entry |
| Mail.CollectLastWins | src/Mail/Mailer.php:333-353 | a later entry with the same address overwrites an earlier one: the last entry that stores under a key decides its value |
| Mail.RecipientsString | src/Mail/Mailer.php:329-331 | a string is one address, under its converted key, with a null name |
| Mail.NumericAddressCollides | src/Mail/Mailer.php:333-351 | example: an array recipient with email "42" is stored under the integer key 42 and overwrites the recipient listed at index 42 |
| Mail.StringListKeys | src/Mail/Mailer.php:333-335 | a list of address => name strings never fails, and its keys are exactly the result's keys |
| Mail.StringListValues | src/Mail/Mailer.php:333-335 | each address => name string comes back unchanged |
| Mail.LastWithKey | src/Mail/Mailer.php:333-335 | the last position from an index on that has the same key |
| Mail.RecipientsSkipsEmptyObject | src/Mail/Mailer.php:338-340 | an object entry with neither email nor address adds nothing |
| Mail.RecipientsSkipsEmptyArray | src/Mail/Mailer.php:347-349 | an array entry whose email (or, without an email key, address) reads as false adds nothing |
| Mail.RecipientsSkipsOthers | src/Mail/Mailer.php:333-353 | null, boolean and integer entries are skipped |
| Mail.RecipientsObjectAsList | src/Mail/Mailer.php:355-361 | a single object is read exactly as a one-entry list holding it |
| Mail.RecipientsSingleObject | src/Mail/Mailer.php:355-361 | a single object gives one entry when it has an email or address, the empty array when it has neither |
| Mail.RecipientsOtherTypes | src/Mail/Mailer.php:327-363 | null, booleans and integers give the empty array |
| Mail.ArrayEmailShadowsAddress | src/Mail/Mailer.php:342-347 | example: with an empty email and an address, the object form gives the address while the array form is skipped |

## Left out

- PCRE evaluation. The segment constraint in `resolveUrl` is the parameter `rx`, which answers Matched, NoMatch or Raised. Raised is caught and ignored, as in the source. `fileNameMatch`'s regular expression is modelled directly as a recursive glob matcher over the characters `*`, `?` and literals.
- Multibyte strings. Strings are sequences of characters, so `substr` and `mb_substr` coincide. `mb_strtolower` and the `i` flag fold ASCII letters only.
- Router.Rule.ResolveUrl: requires at most one wildcard segment. With two or more, the source reads `$wildSegments` before it is ever assigned.
- Router.Rule.ResolveUrl: the parameter map is a Dafny `map`, so the insertion order of the PHP array is not modelled.
- Router.Rule.Condition, Router.Rule.AfterMatch: a callable is an opaque id and is never invoked. `gettype()` is given as a string.
- Text.LooseEquals: follows PHP 8 on a 64-bit build. Integer strings compare by value when both fit the 64-bit integer range and as plain strings otherwise. Float, exponent and white-space-padded numeric strings are compared as plain strings, whereas PHP compares them as numbers.
- Database.MemoryCache: `hash()` (md5 over the connection name, the SQL and the bindings) is an arbitrary function fixed at construction. The results are of an arbitrary type `R`. The table name is taken to be a string already.
- Database.MemoryCache.Enabled: the switch is a boolean, as the docblock declares. PHP stores any non-null value as given and returns it unchanged; non-boolean values are not modelled.
- FilesystemHelpers.OctDec: returns the exact natural number. PHP's `octdec` returns a float once the value exceeds PHP_INT_MAX (a mask of more than 21 octal digits), and that rounding is not modelled.
- FilesystemHelpers.GetFilePermissions, FilesystemHelpers.GetFolderPermissions: inherit the exact result of OctDec above, where PHP would give a float for a mask beyond PHP_INT_MAX.
- FilesystemHelpers.SymbolizePath: only a string or the absent default (FALSE) is modelled as the default argument.
- FilesystemHelpers.FileNameMatch: an array `$fileName` is not modelled.
- FilesystemHelpers.FileNameMatch: PCRE's backtracking limit is not modelled. Where preg_match fails on it, PHP's cast answers FALSE, while the model decides the glob match.
- The rest of the file helper (`put`, `copy`, `makeDirectory`, `chmod`, `findSymlinks`, size formatting and the local-path checks) is not part of this model. They are file-system I/O.
- Mail.Recipients: a `Collection` of recipients is not modelled, only PHP arrays.
- Mail.Recipients: the result is a Dafny `map`, so the order of the returned `address => name` array is not modelled. In PHP a key keeps the position of its first insertion and a later duplicate overwrites it in place; the sending paths iterate the array in that order.
- Mail.Collect: the same holds for the loop's accumulated array; only its keys and values are modelled, not their order.
- Mail.ProcessRecipients: the same holds for the method's result; only its keys and values are modelled, not their order.
- Mail.Recipients: float values are not modelled. Objects are their public properties; magic `__get` is not modelled.
- Mail.Lookup: an array argument is taken with the keys it is given, so the model also admits keys a real PHP array cannot hold, such as the string key "0"; only the keys the code itself stores go through StringKey.
- Mail.Recipients: an illegal offset (an array or object address) ends the call with an error, as PHP 8's TypeError does. The PHP 7 warning that skips the assignment is not modelled.
- Mail.ParseView: the notice for a missing `$view[1]` is not modelled; the value reads as null.
- The mailer's sending paths (`send`, `sendTo`, `queue`, `later`, `addContent`, `pretend`, `sendToMany`) are not part of this model. They are events, message objects, configuration and queues.
- `RouterHelper::parseValues` and `replaceParameters` are not part of this model. They read object properties by reflection.
