# Tampermonkey userscript list — a Dafny model of `main.py`

The program reads every `*.user.js` file in `./scripts`. From each file it
pulls four metadata fields: `@name`, `@description`, `@author` and
`@downloadURL`. It escapes the values for MDX and writes one report,
`userscripts.mdx`: a fixed header, then one section per script.

This project models the three pieces of logic in `main.py`:

- **`escape_mdx`** (module `Escape`, file `escape.dfy`). This is a pure
  function. Each character of `< > @ [ ] \ ` * _ { } & #` is prefixed with a
  backslash. The backslash is in the set too, so the escaping is uniquely
  decodable. The model proves that with an explicit decoder, `Unescape`. It
  also proves that the function is not idempotent.
- **`extract_script_info`** (module `Extract`, file `extract.dfy`). It takes
  the file contents as a parameter. The method `ExtractScriptInfo` keeps the
  source's loop over the four patterns and its in-place updates of the
  `info` dictionary. The dictionary is a `map<string, string>` that starts
  with `"N/A"` under every key. Each pattern `@<key>\s+(.+)` is modelled as
  an exact scan that reproduces Python's regular-expression semantics:
  - The match starts at the leftmost position.
  - The greedy `\s+` may cross line breaks. It gives characters back one at
    a time until `.` can match (`GiveBack`).
  - The capture runs to the next line break (`LineEnd`).
  - `PatternAt` is an independent, declarative reading of the same pattern.
    `SplitSpec`, `SearchFirst` and `SearchNone` prove that the scan agrees
    with it.
- **`generate_markdown`** (module `Render`, file `render.dfy`). The method
  `GenerateMarkdown` keeps the source's loop that grows the string with
  `+=`. It is proved equal to `Markdown`, a recursive definition: the header
  followed by one `Section` per record, in list order. The lemmas prove how
  a report is laid out. They also prove that when no field value spans two
  lines, the report determines the records it was rendered from. Every
  value that extraction produces is one line (`Render.ExtractedOneLine`).

`wrappers.dfy` holds the `Option` type that the search returns.

Modelling assumptions:

- Whitespace is Python's `str.isspace` set. Both `\s` in a `str` pattern
  and `str.strip()` use this set: U+0009–U+000D, U+001C–U+0020, U+0085,
  U+00A0, U+1680, U+2000–U+200A, U+2028, U+2029, U+202F, U+205F and U+3000.
- `.` matches any character except `\n`.
- The `content` parameter is the text that `open(..., 'r')` returns. It is
  already decoded from UTF-8, and text mode has already turned `\r\n` and
  `\r` into `\n`.

What `main.py` does, and therefore what the model does:

- There is no fallback to any other source of metadata: the four header
  fields are the only input (main.py:21-31).
- `downloadURL` defaults to the string `"N/A"` like the other three fields
  (main.py:18).
- The download line is always a link `[u](u)`, even when `u` is `"N/A"`
  (main.py:42; `Render.Section`, `Render.DownloadDefault`).
- The escape class at main.py:7 contains the backslash. That is what makes
  the escaping decodable, and it is why escaping twice always changes a
  text that holds a special character.

## Model

| member | source | states |
|---|---|---|
| `Escape.EscapeChar` | main.py:7-8 | A character becomes two characters, a backslash and itself, exactly when it is in the escape class; otherwise it is kept as it is |
| `Escape.EscapeMdx` | main.py:5-8 | escape_mdx: the escaped text is longer than the input by exactly the number of special characters in the input |
| `Escape.EscapeAppend` | main.py:8 | Escaping distributes over concatenation: escape(a + b) = escape(a) + escape(b) |
| `Escape.EscapeAt` | main.py:7-8 | The i-th input character sits at index i plus the number of special characters before it, with a backslash in front exactly when it is special |
| `Escape.UnescapeEscape` | main.py:7-8 | Removing the escaping backslashes from escape(s) gives back s |
| `Escape.EscapeUnescape` | main.py:7-8 | Any text the decoder accepts is the escaping of what it decodes to, so escaped texts are exactly the decodable ones |
| `Escape.EscapeDecodable` | main.py:7-8 | Unescape(t) = s if and only if t = escape(s), proved in both directions |
| `Escape.EscapeInjective` | main.py:7-8 | Two different texts never escape to the same output |
| `Escape.CountSpecialEscaped` | main.py:7 | The escaped text holds twice as many special characters as the input, because each added backslash is special too |
| `Escape.EscapeFixedIff` | main.py:7-8 | Escaping leaves a text unchanged if and only if the text has no special character |
| `Escape.EscapeTwiceIff` | main.py:7 | escape(escape(s)) = escape(s) if and only if s has no special character: the escaper is not idempotent |
| `Escape.EscapeKeepsChar` | main.py:8 | Escaping adds no character other than the backslash: any other character occurs in the output if and only if it occurs in the input |
| `Extract.TrimStartSpec` | main.py:31 | The left part of strip removes the longest all-whitespace prefix and keeps the rest unchanged |
| `Extract.TrimEndSpec` | main.py:31 | The right part of strip removes the longest all-whitespace suffix and keeps the rest unchanged |
| `Extract.StripSpec` | main.py:31 | strip keeps one contiguous slice, with only whitespace before and after it, and the slice does not begin or end with whitespace |
| `Extract.StripIsTrim` | main.py:31 | Any slice with those properties is exactly what strip returns, so the result is unique |
| `Extract.Strip` | main.py:31 | str.strip: the result is no longer than the input and neither starts nor ends with whitespace |
| `Extract.StripIdempotent` | main.py:31 | Stripping twice gives the same result as stripping once |
| `Extract.WsRunSpec` | main.py:22-25 | The greedy `\s+` takes the longest run of whitespace, which may include line breaks |
| `Extract.LineEndSpec` | main.py:22-25 | The greedy `(.+)` stops at the first line break or at the end of the text |
| `Extract.GiveBackSpec` | main.py:22-25 | Backtracking keeps the longest whitespace prefix, at least one character, after which `.` can match; it fails when there is none |
| `Extract.MatchAt` | main.py:22-25 | The match of `@key\s+(.+)` at one position: its capture never contains a line break |
| `Extract.SplitSpec` | main.py:22-25 | The scan matches at a position exactly when the declarative pattern can match there, and then with the largest whitespace run that the pattern allows |
| `Extract.Search` | main.py:22-29 | re.search of `@key\s+(.+)`: a capture it reports never contains a line break |
| `Extract.SearchFirst` | main.py:29 | re.search reports the match at the first position where the pattern matches |
| `Extract.SearchNone` | main.py:29 | re.search fails exactly when no position matches |
| `Extract.SearchCapturesFirst` | main.py:22-29 | Given the leftmost match and its split, the capture is the rest of the line after the marker and the whitespace |
| `Extract.FieldFromFirstMatch` | main.py:28-31 | A field whose pattern first matches at p gets escape(strip(capture)), where the capture is the rest of that line; later occurrences are ignored |
| `Extract.LineMatch` | main.py:22-25 | On a line `@key`, whitespace, a value, after text whose own `@key` markers are followed by non-space characters, the pattern first matches at the marker, and `\s+` takes all of the whitespace |
| `Extract.SearchAtLine` | main.py:22-29 | When the first match leaves a one-line text before a line break, re.search captures exactly that text |
| `Extract.SearchLine` | main.py:22-29 | On such a line, re.search captures exactly the value |
| `Extract.FieldFromLine` | main.py:21-31 | A header line `@key`, whitespace, v sets the field to escape(strip(v)) when every earlier `@key` is directly followed by a non-space character (as `@namespace` is for `@name`); the whitespace may hold line breaks |
| `Extract.FieldAbsent` | main.py:14-31 | A field whose pattern matches nowhere keeps the default "N/A" |
| `Extract.FieldNAIff` | main.py:14-31 | A field reads "N/A" if and only if its pattern never matched or its stripped capture was literally "N/A" |
| `Extract.MarkerNeedsSpace` | main.py:22-25 | A marker followed directly by a non-whitespace character (`@namespace` for `@name`) does not match at that position |
| `Extract.FieldValue` | main.py:14-31 | The value extract_script_info stores under one key; it never contains a line break |
| `Extract.ExtractScriptInfo` | main.py:14-33 | The result has exactly the keys name, description, author and downloadURL; each key holds its own field's value, which depends only on that key's pattern |
| `Render.Markdown` | main.py:35-45 | generate_markdown: every report starts with the fixed header |
| `Render.MarkdownEmpty` | main.py:36-45 | With no records, the report is exactly the fixed header |
| `Render.SectionsAppend` | main.py:38-43 | The sections of a concatenated list are the concatenation of the sections |
| `Render.MarkdownSnoc` | main.py:38-43 | Appending a record to the list appends its section to the report |
| `Render.SectionAt` | main.py:38-43 | The i-th record's section stands right after the sections of the records before it, in list order |
| `Render.MarkdownPrefix` | main.py:38-43 | After the loop has handled the first i + 1 records, the report is the report of the first i records followed by the i-th record's section |
| `Render.Section` | main.py:39-43 | The section of one record ends with the download value as both the label and the target of a link, then the separator, whatever the value is |
| `Render.DownloadDefault` | main.py:18-42 | The section of a record whose download value is the default "N/A" ends with the link `[N/A](N/A)` and the separator |
| `Render.SectionPrefixInjective` | main.py:39-43 | A section of one-line values, followed by any text, gives back the record's four fields and that text |
| `Render.SectionsEmpty` | main.py:38-43 | Only the empty list renders to no sections |
| `Render.SectionsInjective` | main.py:38-43 | The sections of one-line records give back the records' four fields, one for one and in order |
| `Render.MarkdownInjective` | main.py:35-45 | Two lists of one-line records that render to the same report have the same length and agree on all four fields at every index |
| `Render.ExtractedOneLine` | main.py:28-31 | Every record that extract_script_info returns is one-line and can be rendered |
| `Render.GenerateMarkdown` | main.py:35-45 | The loop that grows the string with `+=` builds exactly the header followed by each record's section in list order |

## Left out

- `main` (main.py:47-66) is not modelled. It checks that `./scripts`
  exists, enumerates `*.user.js` files with `glob`, appends one record per
  file and writes `userscripts.mdx`. These are filesystem effects, and the
  enumeration order depends on the platform.
- Reading the file (main.py:11-12) is not modelled: the contents are a
  parameter. A decoding error on a file that is not valid UTF-8 is
  therefore not modelled either.
- Console output (`print`) is not modelled.
- Python's regular-expression engine in general is not modelled. Only the
  one pattern shape `@<key>\s+(.+)` is modelled, as an explicit scan.
- The Unicode database is not modelled. The whitespace set is fixed to the
  table above; a different Python version could classify more characters.
- `Extract.ExtractScriptInfo`: the key order of the returned dictionary is
  not modelled, because Dafny maps are unordered. Every reader of the
  dictionary looks values up by key, so nothing in the core depends on
  that order.
- `Render.GenerateMarkdown` requires every record to have the four keys.
  In Python a missing key raises `KeyError`; the only caller passes records
  built by `extract_script_info`, which always have them.
