# BrickInc mailer request model

This project models how the WordPress BrickInc mailer builds the JSON
request body it sends to the vendor's `sendmail` API, and how it reports
errors and settings completeness. The modelled class is
`includes/Provider/Mailer.php`:

- custom headers go into `body['headers']` as a list of `{name, value}` entries;
- sender and recipients go into `from`, `from_name`, `to`, `cc` and `bcc`;
- the message content goes into `content`;
- readable attachments go into `attachments`;
- the error text is derived from a decoded API response;
- the settings count as complete when an API key is saved.

The body is `Body.Request`, a `map<string, Field>` taken before JSON encoding. Every
operation is a pure function from the old body to the new one, or a method
whose loop mirrors the source's `foreach`. The WordPress and PHP functions
the mailer calls are fields of `Host.Env`, so every property holds whatever
those functions do, except that `set_headers` is modelled only for a
`sanitize_text_field` that leaves the two literal names `X-Mailer` and
`Message-ID` unchanged. The host functions are:

- `sanitize_text_field`;
- `WP::sanitize_value`;
- `FILTER_VALIDATE_EMAIL`;
- the file reads;
- `base64_encode`.

PHP's `empty()` on a string is true for `""` and also for `"0"`
(`Php.EmptyString`). The model keeps that everywhere the source uses
`empty()`. For example, a header whose name sanitises to `"0"` is dropped,
and a sender name `"0"` does not set `from_name`.

Modules:

- `Php`: the PHP value semantics the mailer relies on, plus `implode`/`explode` on a one-character separator.
- `Seqs`: generic filter-map and concatenation over sequences.
- `Host`: the host functions, as `Env`.
- `Body`: the request body and `set_body_param`.
- `Headers`: `set_body_header` and `set_headers`.
- `Recipients`: `set_from` and `set_recipients`.
- `Content`: `set_content`.
- `Attachments`: `prepare_attachments` and `set_attachments`.
- `Diagnostics`: `get_response_error` and `is_mailer_complete`.

## Model

| member | source | states |
|---|---|---|
| Body.SetBodyParam | includes/Provider/Mailer.php:132 | The body keeps all its old keys and gains the parameter's keys. A parameter value replaces the old value under the same key. Every other key keeps its old value. |
| Headers.Search | includes/Provider/Mailer.php:100 | The strict `array_search` over the header names finds nothing exactly when no entry has the name. Otherwise it returns the position of the first entry with that name. |
| Headers.Remove | includes/Provider/Mailer.php:99-104 | An absent name leaves the list as it is. For a present name, the entry at the first position with that name is dropped. The entries before and after it keep their order. |
| Headers.RemoveUnique | includes/Provider/Mailer.php:99-104 | In a list with no name twice, removing a name gives the reference list `Without`: the entries with other names, in their old order. The result still has no name twice and no entry with the removed name. |
| Headers.Put | includes/Provider/Mailer.php:99-111 | An absent name is appended as a new `{name, value}` entry. For a present name, the entry at the first position with that name is dropped, the others close up in order, and the new entry is appended. |
| Headers.PutNames | includes/Provider/Mailer.php:99-111 | The set of header names gains exactly the new name. |
| Headers.PutUnique | includes/Provider/Mailer.php:99-111 | Starting from unique names, the names stay unique. Every entry before the new one is an old entry with another name, in its old order. |
| Headers.PutKeepsLast | includes/Provider/Mailer.php:99-111 | When the old last entry has a different name, it becomes the second-to-last entry. |
| Headers.PutTwice | includes/Provider/Mailer.php:99-111 | In a list with unique names, putting one name twice is the same as putting only the second value. |
| Headers.SetBodyHeader | includes/Provider/Mailer.php:85-112 | A name that sanitises to an empty string changes nothing. Otherwise the header list ends with the sanitised name and the stored value. That value is sanitised unless the name is `Message-ID`. No key other than `headers` changes. |
| Headers.SetBodyHeaderNames | includes/Provider/Mailer.php:85-112 | The header names afterwards are the old names plus the sanitised name, unless that name is empty. |
| Headers.SetBodyHeaderUnique | includes/Provider/Mailer.php:93-111 | For a name that does not sanitise to an empty string, in a body whose header names are unique, the duplicate prevention works: unique names stay unique. All entries but the last are the old entries with other names, in order. |
| Headers.PutKeeps | includes/Provider/Mailer.php:99-111 | Every entry under another name is still in the list after the update, value included, whether or not names were unique. |
| Headers.SetBodyHeaderKeeps | includes/Provider/Mailer.php:85-112 | Every header entry under a name other than the sanitised one survives `set_body_header`, value included. |
| Headers.SetBodyHeaderTwice | includes/Provider/Mailer.php:85-112 | In a body whose header names are unique, setting the same header twice leaves the body as if only the second value had been set. The source removes only the first match, so with repeated names the older duplicate would remain. |
| Headers.Trailer | includes/Provider/Mailer.php:75-76 | `X-Mailer` with the sanitised version string, then `Message-ID` with the unsanitised ID, are the last two header entries. This holds whatever headers came before. |
| Headers.SetHeaders | includes/Provider/Mailer.php:65-77 | After all custom headers and the two added headers: `X-Mailer` and then `Message-ID` are the last two entries. The names are the old names, plus every custom name that survives sanitising, plus those two. Unique names stay unique. No other body key changes. Values are stated too. An old entry whose name no custom header and neither added header uses is kept with its value. Each custom header that no later custom header and neither added header overrides is present with its sanitised name and stored value. |
| Recipients.SetFrom | includes/Provider/Mailer.php:120-133 | An address that fails validation leaves the body unchanged. A valid one sets `from`. A non-empty name also sets `from_name`; an empty one leaves `from_name` as it was. Nothing else changes. |
| Recipients.ValidAddressesMember | includes/Provider/Mailer.php:158-168 | A string is among the kept addresses exactly when some entry's address slot is that string and it validates. |
| Recipients.SetRecipients | includes/Provider/Mailer.php:140-187 | Keys other than `to`, `cc` and `bcc` are ignored. A type with no valid address leaves its key as it was. `to` becomes all valid addresses joined by commas. `cc` and `bcc` become only their first valid address. |
| Recipients.ToRoundTrip | includes/Provider/Mailer.php:170-176 | Splitting the `to` value at commas gives back the valid addresses in input order, as long as none of them contains a comma. |
| Recipients.CopyIsFirstValid | includes/Provider/Mailer.php:177-183 | The `cc`/`bcc` value is the address of an entry that validates, and every earlier entry failed validation. |
| Php.Join | includes/Provider/Mailer.php:174 | `implode` returns a single part as it is. When no part contains the separator, the separator occurs in the result exactly when there are at least two parts. `Php.SplitJoin` gives the full round trip. |
| Php.SplitJoin | includes/Provider/Mailer.php:174 | For one or more parts, none containing the separator, `explode` inverts `implode`. No parts at all give `['']` back, as in PHP. |
| Seqs.FilterMap | includes/Provider/Mailer.php:160-168 | The filter loop (`continue` on rejection, `$data[] =` on acceptance) never yields more elements than it reads. `Seqs.Kept` says which elements are kept. |
| Seqs.Kept | includes/Provider/Mailer.php:160-168 | Every kept element comes from a distinct input position, in increasing order. Every input that the filter accepts is kept. |
| Content.ContentParts | includes/Provider/Mailer.php:200-221 | A string gives one part whose type is text exactly when the content type is `text/plain`. An array gives its non-empty `text` version, then its non-empty `html` version, with no type twice. There is a text part iff a text version is given, and an html part iff an html version is given. |
| Content.SetContent | includes/Provider/Mailer.php:194-228 | Empty content changes nothing. Otherwise `content` is set to the parts, even when the parts list is empty. No other key changes. |
| Attachments.PrepareAttachments | includes/Provider/Mailer.php:260-290 | One entry per readable file, in input order. Each entry holds the base64 of the file's bytes and the attachment's name. An unreadable file is skipped. When all files are readable, no entry is lost. |
| Attachments.SetAttachments | includes/Provider/Mailer.php:236-251 | `attachments` is set to the prepared entries exactly when at least one file is readable. Otherwise the body is unchanged. No other key changes. |
| Diagnostics.ItemLine | includes/Provider/Mailer.php:328-333 | The line lays out the `%1$s (%2$s - %3$s)` format and an end of line, position by position. The slots are the description or "General error", the message or "Error", and the field or nothing; each fallback applies when the property is missing or PHP-empty. |
| Diagnostics.ItemLines | includes/Provider/Mailer.php:327-334 | An empty error list gives an empty message. A one-element list gives exactly that element's line. A non-empty list gives a message ending in an end of line. With `Diagnostics.ItemLinesConcat` this fixes the message as one line per element, in order. |
| Diagnostics.ItemLinesConcat | includes/Provider/Mailer.php:327-334 | The message for a list of errors is the message for one part of the list followed by the message for the rest. |
| Diagnostics.ItemLinesStart | includes/Provider/Mailer.php:327-334 | The message for a non-empty error list starts with the line of its first element. |
| Diagnostics.ResponseError | includes/Provider/Mailer.php:312-338 | A preset error message wins. Otherwise a string error is followed by ` - info` when info is given. A missing or empty error gives just ` - info`, or nothing. An error list gives one line per element. Any other error type gives an empty message. |
| Diagnostics.ResponseErrorEmpty | includes/Provider/Mailer.php:312-338 | The message is empty exactly when no message is preset and either the error has another type, or there is neither an error nor info. |
| Diagnostics.IsMailerComplete | includes/Provider/Mailer.php:357-367 | The settings are complete exactly when an API key is saved that is neither "" nor "0". |
| Diagnostics.OnlyApiKeyMatters | includes/Provider/Mailer.php:359-366 | The API key is the only required option: two option groups that agree on `api_key` are equally complete, whatever their other options. |

## Left out

- `get_body` (lines 53-58) JSON-encodes the body. The model stops at the map before encoding.
- The constructor's HTTP headers (lines 42-43) are left out: they are request transport, not body content. So are the option reads behind `is_mailer_complete`; the option group is a parameter.
- `set_reply_to` and `set_return_path` (lines 297 and 305) do nothing, so they have no member.
- `get_debug_info` (lines 345-350) only formats `is_mailer_complete` as HTML. It is left out.
- The success code 202 and the API URL (lines 23 and 30) concern sending the request, which is not modelled.
- The HTTP response is left out. `get_response_error` works on the decoded body, which is a parameter.
- `esc_html__` is taken as the identity on its English literals. `PHP_EOL` is taken as `"\n"`.
- The following are parameters of `Env` with no behaviour of their own: `sanitize_text_field`, `WP::sanitize_value`, `FILTER_VALIDATE_EMAIL`, `is_file`/`is_readable`/`file_get_contents` with their exceptions, and `base64_encode`.
- Body.SetBodyParam: the host's `set_body_param` merges arrays recursively. The model overrides the top-level key instead. The two differ only when the same array-valued key, `content` or `attachments`, is set twice on one body.
- Headers.CurrentHeaders: a non-list value under `body['headers']` is treated as an empty list. The source's `(array)` cast would wrap it.
- Headers.SetHeaders: requires `sanitize_text_field` to return the literals `X-Mailer` and `Message-ID` unchanged, which the real function does. Without that requirement the uninterpreted `Env` could rename them.
- Recipients.SetRecipients: each entry of a recipient list is reduced to its address slot `[0]`. Integer keys are left out, because they can never be strictly equal to `to`, `cc` or `bcc`.
- Attachments.PrepareAttachments: each attachment is reduced to slot 0 (the path) and slot 2 (the name). Other slots are not used by this code.
- Diagnostics.ResponseError: error-list elements that are not objects are taken as elements with every property missing, which is what PHP's property access on them yields. `info` is taken to be a string.
- The other repository files (the admin loader, the options class, the plugin bootstrap, the CLI loader) are not part of this model.
