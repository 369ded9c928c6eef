# Dork Visualizer: query rendering and link construction

The Dork Visualizer is a Streamlit page. It turns a catalog of Google "dork"
query templates into search links for a target domain the user enters. Its
logic is a handful of string transformations, and this project models them:

- **Substitution.** `template.format(target=target)` puts the domain in
  place of every `{target}` placeholder.
- **Link.** `generate_google_link` appends `urllib.parse.quote(query)` to
  `https://www.google.com/search?q=`. `quote` writes the UTF-8 bytes of the
  query and percent-encodes every byte except the unreserved characters of
  section 2.3 of RFC 3986 and `/`.
- **Preview.** The card text is the query with every `site:<target>` removed
  and surrounding whitespace stripped. It falls back to `Whole Site Search`
  when nothing is left.
- **Page.** Without a target, the page shows only the welcome overview.
  With one, it shows a tab per category and a card per entry. Item `i` of a
  grid goes to column `i % 3`.
- **Hints.** The syntax page shows up to four explanation lines per
  template, each chosen by a substring test.

Modules:

- `Text` (text.dfy) models Python's `str.replace`, `str.strip()` and the
  `in` substring test.
- `Utf8` (utf8.dfy) is the encoding of RFC 3629, with a strict decoder.
- `Percent` (percent.dfy) is `quote` with its default `safe='/'`, plus a
  percent-decoder as its inverse.
- `DorkKing` (dork_king.dfy) is the page logic.
- `Wrappers` (wrappers.dfy) holds the `Option` type.

Everything is a pure function. The only loops in the program drive UI
output. The results-page loops (dork_king.py:279 and 284) appear here as
the sequence comprehensions in `Page` and `TabFor`. Of the syntax-page
loops over categories and entries (dork_king.py:314 and 317), only the
body of the inner loop is modelled, as `Hints` for one template.

The substitution step is modelled as `ReplaceAll(template, "{target}",
target)`. This holds only under the precondition `IsTemplate`: every brace
in the template belongs to a `{target}` field. Under that precondition,
`str.format` with the single keyword `target` does exactly this
replacement. Every catalog template at dork_king.py:29-118 has this form.

`Render` accepts an empty target, as `str.format` does. The refusal to
build queries without a target is the page's guard at dork_king.py:264,
modelled in `Page`.

The name `quote` stands for two different things in this model:

- `Percent.Quote` models Python's `urllib.parse.quote`.
- The hint tag for a double quote is called `ExactPhraseHint`.

## Model

| member | source | states |
|---|---|---|
| `Text.ReplaceAll` | dork_king.py:286-290 | `str.replace`: replacing the pattern by itself changes nothing, and a replacement no longer than the pattern never lengthens the string. Its full behaviour on every string is fixed by `Text.ReplaceAllLeftmost` and `Text.ReplaceAllAbsent`. |
| `Text.Contains` | dork_king.py:326-333 | Python's `p in s`: the empty string is in every string, and a pattern longer than `s` is in none. |
| `Text.ReplaceAllJoin` | dork_king.py:286 | Replacing `pat` in pieces joined by `pat` gives the same pieces joined by the replacement, provided no piece holds `pat`'s first character. Text outside the occurrences is copied verbatim, and the inserted text is not scanned again. |
| `Text.ReplaceAllLeftmost` | dork_king.py:286-290 | `replace` turns the leftmost occurrence of the pattern into the replacement, copies the text before it and continues after that occurrence, so overlapping candidates are not replaced twice (`"aaa".replace("aa", r)` is `r + "a"`). |
| `Text.ReplaceAllAbsent` | dork_king.py:290 | `replace` leaves a string with no occurrence of the pattern unchanged. |
| `Text.TrimStart` | dork_king.py:290 | The result is a suffix of `s`. Everything cut off is whitespace, and the result does not begin with whitespace. |
| `Text.TrimEnd` | dork_king.py:290 | The result is a prefix of `s`. Everything cut off is whitespace, and the result does not end with whitespace. |
| `Text.Strip` | dork_king.py:290 | `strip()` neither begins nor ends with whitespace. It is empty exactly when the input is all whitespace, using Python's `isspace` set. |
| `Text.StripSlice` | dork_king.py:290 | `strip()` is a slice `s[i..j]` of its input, with only whitespace removed before `i` and after `j`. |
| `Utf8.Encode` | dork_king.py:125 | `str.encode('utf-8')` gives between one and four bytes per character. It is pinned down exactly by `Utf8.DecodeEncode` and `Utf8.EncodeDecode`. |
| `Utf8.EncodeChar` | dork_king.py:125 | A character takes 1 to 4 bytes. It takes one byte exactly when it is ASCII, and that byte is its code. Otherwise the lead byte is at least 0xC2 and the rest are continuation bytes, so every byte of a non-ASCII character is at least 0x80. |
| `Utf8.DecodeFirstEncodeChar` | dork_king.py:125 | The decoder reads a character's UTF-8 form back as that character, whatever bytes follow. |
| `Utf8.EncodeCharDecodeFirst` | dork_king.py:125 | The decoder accepts a sequence only if it is the exact UTF-8 form of the character it returns, so there are no overlong forms and no surrogates. |
| `Utf8.DecodeEncode` | dork_king.py:125 | Round trip: decoding the UTF-8 form of any string gives the string. |
| `Utf8.EncodeDecode` | dork_king.py:125 | Reverse round trip: any byte sequence that decodes is the UTF-8 form of its decoding. |
| `Utf8.EncodeInjective` | dork_king.py:125 | Distinct strings have distinct UTF-8 forms. |
| `Percent.HexDigit` | dork_king.py:125 | Escapes are written with upper-case hexadecimal digits. |
| `Percent.QuoteBytes` | dork_king.py:125 | `quote_from_bytes` writes one or three characters per byte. |
| `Percent.Quote` | dork_king.py:125 | `quote(s)` has the escaped-only shape and is at most twelve characters per character of `s`. Its value is pinned down by `Percent.UnquoteQuote`, `Percent.QuoteAppend`, `Percent.QuoteSafe` and `DorkKing.ExampleQuoteChars`. |
| `Percent.QuoteBytesIsQuoted` | dork_king.py:125 | The output of `quote` holds only unreserved characters, `/` and `%`, and every `%` is followed by two upper-case hex digits. |
| `Percent.QuotedHasNoDelimiters` | dork_king.py:125 | A quoted string is pure ASCII and contains none of space, `"`, `:`, vertical bar, `&`, `=`, `+`, `?` or `#`. |
| `Percent.UnquoteQuoteBytes` | dork_king.py:125 | Percent-decoding the output of `quote_from_bytes` gives back the bytes. |
| `Percent.UnquoteQuote` | dork_king.py:125 | Round trip: percent-decoding then UTF-8 decoding `quote(s)` gives back `s` exactly. |
| `Percent.QuoteInjective` | dork_king.py:125 | `quote` maps distinct strings to distinct encodings. |
| `Percent.QuoteAppend` | dork_king.py:125 | `quote` works character by character: `quote(a + b) == quote(a) + quote(b)`. |
| `Percent.QuoteSafe` | dork_king.py:125 | A string of unreserved characters and `/` is left exactly as it is. |
| `DorkKing.Pieces` | dork_king.py:286 | A template splits into brace-free literal pieces that, joined by `{target}`, give back the template. |
| `DorkKing.JoinIsTemplate` | dork_king.py:286 | Conversely, brace-free pieces joined by `{target}` always form a template. |
| `DorkKing.Substitute` | dork_king.py:286 | `template.format(target=...)`: substituting the text `{target}` itself gives the template back. Its value is stated by `DorkKing.SubstituteSpec`. |
| `DorkKing.SubstituteSpec` | dork_king.py:286 | The query is the template's literal pieces joined by the target. Text outside placeholders is unchanged, and each placeholder becomes the target. |
| `DorkKing.SubstituteLeavesNoPlaceholder` | dork_king.py:286 | For a target without braces, the query holds no brace and no `{target}`. |
| `DorkKing.TargetCanReintroducePlaceholder` | dork_king.py:286 | The inserted target is not scanned again: the target `{target}x` substituted into `{target}` gives `{target}x`, where a second pass would expand it again. |
| `DorkKing.SubstituteOnePlaceholder` | dork_king.py:286 | For a template with exactly one placeholder, as every catalog template has, the query contains `{target}` only if the target does. |
| `DorkKing.TargetCanCompletePlaceholder` | dork_king.py:286 | With two placeholders that no longer holds: the target `}{` in `{target}target{target}` gives `}{target}{`, which contains `{target}` although the target does not. |
| `DorkKing.Link` | dork_king.py:122-126 | `generate_google_link` starts with `https://www.google.com/search?q=`, and the rest has the escaped-only shape. |
| `DorkKing.LinkSpec` | dork_king.py:122-126 | The link starts with `https://www.google.com/search?q=`. The rest is exactly `quote(query)`, has the escaped-only shape above, and decodes back to the query. |
| `DorkKing.LinkInjective` | dork_king.py:122-126 | Different queries never share a link. |
| `DorkKing.ExampleQuoteChars` | dork_king.py:125 | In the query `site:example.com "密码"`, `:` is written `%3A`, space `%20`, `"` `%22`, 密 `%E5%AF%86` and 码 `%E7%A0%81`. |
| `DorkKing.ExampleSubstitute` | dork_king.py:286 | The template `site:{target} "密码"` with the target `example.com` gives the query `site:example.com "密码"`. |
| `DorkKing.GitHubSubstitute` | dork_king.py:62 | The catalog's GitHub template `site:github.com "{target}"` is a `{target}`-only template, and for `example.com` it gives `site:github.com "example.com"`. |
| `DorkKing.ExampleRender` | dork_king.py:284-287 | Rendering that template for `example.com` gives that query and the link `https://www.google.com/search?q=site%3Aexample.com%20%22%E5%AF%86%E7%A0%81%22`. |
| `DorkKing.ExampleLink` | dork_king.py:122-126 | `quote('site:example.com "密码"')` is `site%3Aexample.com%20%22%E5%AF%86%E7%A0%81%22`, and the link is the search base followed by that text. |
| `DorkKing.Preview` | dork_king.py:290-291 | The preview is never empty. It is either `Whole Site Search` or a text with no leading or trailing whitespace. |
| `DorkKing.PreviewSpec` | dork_king.py:290-291 | The preview is `Whole Site Search` exactly when the query minus every `site:<target>` is blank or already reads `Whole Site Search`. When that remainder is not blank, the preview is the remainder stripped. |
| `DorkKing.PreviewAfterSite` | dork_king.py:290-291 | For a query `site:<target>` followed by filters that do not repeat it, the preview is the stripped filters, or `Whole Site Search` when there are none. |
| `DorkKing.Hints` | dork_king.py:326-333 | The `inurl:` hint appears iff the template contains `inurl:`. The extension hint appears iff it contains `ext:` or `filetype:`. The `site:` hint appears iff it contains `site:`. The exact-phrase hint appears iff it contains `"`. There are at most four hints, always in that order. |
| `DorkKing.Column` | dork_king.py:270-271 | An item's column is in 0..2 and is congruent to its index modulo 3. |
| `DorkKing.ColumnItems` | dork_king.py:282-293 | What one `st.columns` container shows: never more than there are items. Its exact contents are stated by `DorkKing.ColumnItemsSpec`. |
| `DorkKing.ColumnItemsSpec` | dork_king.py:282-293 | Column `c` shows items `c`, `c+3`, `c+6`, ... in catalog order. It holds `(n + 2 - c) / 3` of `n` items, so every item appears once and the column lengths differ by at most one. |
| `DorkKing.Render` | dork_king.py:284-291 | For one entry, the query is the template's literal pieces joined by the target. The link starts with the search base, and the preview is non-empty. |
| `DorkKing.RenderSpec` | dork_king.py:284-291 | For one entry, the query is the template with the target in each placeholder. The link is the search base followed by exactly `quote(query)`, which has the escaped-only shape and decodes back to the query. The preview is exactly `Preview(query, target)`, so `PreviewSpec` and `PreviewAfterSite` apply to it. |
| `DorkKing.TabFor` | dork_king.py:279-284 | A tab carries the category's name and one card per entry. Card `j` holds entry `j`'s title and description, what its template renders to, and column `j % 3`. |
| `DorkKing.Page` | dork_king.py:262-293 | The page is the welcome state exactly when the target is empty. The welcome state holds only the category names, each in column `i % 3`, and no query or link. With a target, the page has one tab per category, in catalog order. |
| `DorkKing.PageSpec` | dork_king.py:279-293 | With a target, card `j` of tab `i` carries entry `j`'s title and description and sits in column `j % 3`. It holds exactly what rendering the entry's template gives: the query is the substituted template, and the link is the search base followed by `quote(query)`, which decodes back to the query. The preview is `Preview(query, target)` and is non-empty. |

## Left out

- Streamlit calls are not modelled: page configuration, sidebar, radio, form, tabs, columns, expander and rerun. They are UI plumbing over a library outside this model.
- The `st.session_state` persistence of `target_domain` (dork_king.py:226, 234, 239) is not modelled. `Page` takes the stored target as a parameter.
- The CSS block (dork_king.py:129-206) and the HTML card markup (dork_king.py:294-307) are not modelled. The program does no HTML escaping, so none is claimed here.
- The catalog text itself (dork_king.py:29-118) is not reproduced. `Page` takes the catalog as a parameter and requires `WellFormedCatalog`.
- The concrete catalog's templates are not proved to meet `WellFormedCatalog`. By reading, every one of them has exactly one `{target}` and no other brace.
- The general `str.format` mini-language is outside the model: `{{`/`}}` escapes, positional and other named fields, conversions and format specs, and the `KeyError`/`ValueError`/`IndexError` they raise. `IsTemplate` excludes such templates.
- Python strings holding lone surrogates are not modelled. For them, `quote` raises `UnicodeEncodeError`, and a Dafny `char` cannot hold a surrogate.
- `Percent.Unquote` is stricter than Python's `urllib.parse.unquote`. It rejects a bare `%`, non-ASCII characters and malformed UTF-8. `unquote` passes the first two through and replaces malformed UTF-8 with U+FFFD.
- `DorkKing.ExampleRender` works from the short template `site:{target} "密码"`. Of the catalog templates at dork_king.py:32-114, which run from 26 to 203 characters, only the GitHub entry (line 62) is substituted in a lemma, `DorkKing.GitHubSubstitute`. The others are not: for literals of 40 characters and more, such as `site:{target} -www -shop -share -ir -mfa`, the equality of the literal pieces with the whole text exceeds the resource limit.
- `DorkKing.SubstituteLeavesNoPlaceholder` is stated only for targets without braces. The broader claim "no `{target}` is left unless the target contains one" is false for templates with two placeholders: `TargetCanCompletePlaceholder` shows the target `}{` assembling one. `SubstituteOnePlaceholder` proves the claim for one-placeholder templates, the form every catalog template has.
- Category names and entry labels are keys of Python dicts in the source, so each is unique. `WellFormedCatalog` does not require this: the `seq<Category>` model also admits catalogs with repeated names, which the program cannot hold. No lemma depends on uniqueness.
- The explanation sentences of the syntax page (dork_king.py:327-333) are represented as the four `Hint` tags, not as text. Entry descriptions are carried as opaque strings.
- Running the same render twice gives the same result. No lemma states this, because every operation here is a function.
