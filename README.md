# Pollinations nodes: catalog classification and image request construction

This project is a Dafny model of the two parts of the Pollinations plugin
nodes that carry real logic. Everything else in the repository is glue.

- **Model-catalog updater** (`pollinations_auto_updater.py`). `fetch_api_models`
  turns the parsed model listings into the catalog `{image, video, text}`.
  Text records are kept when they have a `name` key. Image/video records are
  kept when their `name` is truthy. Each kept image/video record goes to
  `video` when `"video"` is among its `output_modalities` and to `image`
  otherwise. Paid-only models get the premium marker `" 💎"`.
  `formatted_list` renders one bucket as a markdown bullet list. The entry
  point writes `models.json`, rewrites `README.md` and synchronises the
  repositories only when the fetch succeeded.
- **Image node** (`pollinations_nodes.py`). `PollinationsImageGen.generate`
  percent-encodes the prompt with `urllib.parse.quote` (default `safe='/'`).
  It builds the request URL with its parameters in a fixed order, adds a
  bearer-token header when a usable API key is given, and treats status 200
  as an image and every other status as an error.

Modules:

- `Wrappers` (`wrappers.dfy`): `Option`. `None` stands for Python's `None` or
  for a call that raised.
- `PyStr` (`pystr.dfy`): the Python string built-ins the core uses, which are
  `str.join`, `str.strip` and `str(int)`. Each comes with an inverse or a
  characterisation: `Split` for `Join` and `ParseNat` for `NatToString`.
- `PercentEncoding` (`percent_encoding.dfy`): `quote` over the prompt's UTF-8
  bytes, as section 2.1 of RFC 3986 describes it. It keeps the unreserved
  set of section 2.3 plus `/`. `Unquote`, a strict percent-decoder, is its
  partner.
- `ModelCatalog` (`model_catalog.dfy`): record classification, the
  image/video loop (a method proved against the `Entries` specification),
  the bullet-list rendering with a parser partner, and the entry-point guard.
- `ImageGen` (`image_gen.dfy`): the declared inputs, `BuildUrl` with a URL
  parser partner, the header step (a method), response classification and
  `Generate`.

Inputs and outputs that are I/O in the source become parameters here:

- Each listing response is an `Option<seq<Record>>`. `None` means the HTTP
  call or JSON decoding raised.
- `readmeExists` stands for the `os.path.exists` test.
- The HTTP response of `generate` is a `Response` parameter.
- The entry point's result is the ordered list of effects it would perform:
  write the JSON, write the README sections, run the git sync.

The model follows the code as written:

- It neither strips the premium marker before a request nor sorts the catalog.
- On a non-200 status, `generate` raises an exception carrying the status and
  the body. The model gives an `ApiError` value in place of the exception.
- Video detection uses `output_modalities`.

## Model

| member | source | states |
|---|---|---|
| `ModelCatalog.DisplayName` | pollinations_auto_updater.py:35 | the display name is the name followed by the premium marker `" 💎"` for a paid-only model, and exactly the name otherwise |
| `ModelCatalog.KeptSpec` | pollinations_auto_updater.py:19-42 | each bucket has one entry per record the bucket keeps. Entries follow input order (kept positions strictly increase), every such record is present, and there is no sorting and no de-duplication. The k-th entry is the display name of the k-th kept record |
| `ModelCatalog.ImageVideoPartition` | pollinations_auto_updater.py:30-42 | each record with a truthy name lands in exactly one of image and video, the others in neither, so \|image\| + \|video\| equals the number of records with a truthy name |
| `ModelCatalog.EmptyNameIsTextOnly` | pollinations_auto_updater.py:19-32 | a record whose name is `""`, at any position of any listing, is kept as a text model (key presence) but is neither an image nor a video model (truthiness) |
| `ModelCatalog.FetchApiModels` | pollinations_auto_updater.py:13-48 | the result is `None` exactly when a listing call failed. Otherwise the loop's image and video lists and the text list are the `Entries` of their buckets, under exactly the three keys |
| `ModelCatalog.FormatListShape` | pollinations_auto_updater.py:66 | the rendered list is `""` exactly for an empty list. Otherwise it starts with the first bullet and ends with a backtick, so there is no trailing newline |
| `ModelCatalog.FormatListRoundTrip` | pollinations_auto_updater.py:66 | when no name contains a newline, splitting the rendering at newlines and removing the bullet markup gives back the same models in the same order |
| `ModelCatalog.RunUpdater` | pollinations_auto_updater.py:102-110 | on a failed fetch nothing is written. On success the effects are, in order, the JSON write of the catalog, the README write of the Image/Video/Text lists (only when the README exists) and the git sync |
| `PercentEncoding.QuoteByte` | pollinations_nodes.py:33 | a kept byte (unreserved or `/`) is itself. Any other byte is `%` and two upper-case hex digits whose value is the byte |
| `PercentEncoding.UnquoteQuote` | pollinations_nodes.py:33 | percent-decoding the quoted prompt gives back exactly the prompt's bytes |
| `PercentEncoding.QuoteAlphabet` | pollinations_nodes.py:33 | the quoted prompt holds only unreserved characters (the digits of each `%HH` among them), `/` and `%` |
| `PercentEncoding.QuoteLength` | pollinations_nodes.py:33 | the quoted length is the prompt length plus two per escaped byte, so it is never shorter |
| `PercentEncoding.EscapedCountZero` | pollinations_nodes.py:33 | no byte is escaped exactly when every byte is kept |
| `PercentEncoding.QuoteKeptIsIdentity` | pollinations_nodes.py:33 | a prompt made of kept bytes only is quoted as itself, character for byte |
| `PercentEncoding.QuoteConcat` | pollinations_nodes.py:33 | quoting works byte by byte: the quote of a concatenation is the concatenation of the quotes |
| `PyStr.Strip` | pollinations_nodes.py:38 | `strip()` returns the slice of the key from its first to its last non-whitespace character, using Python's whitespace set. It is empty exactly when the key is all whitespace |
| `PyStr.StripIdempotent` | pollinations_nodes.py:39 | stripping the stripped key changes nothing |
| `PyStr.NatToString` | pollinations_nodes.py:34 | `str(n)` of a non-negative integer is a non-empty string of decimal digits without a leading zero |
| `PyStr.ParseNatToString` | pollinations_nodes.py:34 | `str(n)` reads back as `n` |
| `PyStr.IntToString` | pollinations_nodes.py:51 | `str(n)` is the decimal digits of `n` for a non-negative integer, and `-` followed by the decimal digits of `-n` for a negative one: the status in the error message reads back as the status |
| `PyStr.SplitJoin` | pollinations_auto_updater.py:66 | `"\n".join` of lines without a newline splits back into the same lines |
| `PyStr.JoinEndsWithLast` | pollinations_auto_updater.py:66 | a join ends with its last part, so no separator trails it |
| `ImageGen.DefaultsAreDeclaredInputs` | pollinations_nodes.py:16-20 | the default model is one of the declared choices, and the default width, height and seed are within the declared bounds |
| `ImageGen.ModelChoicesAreQueryValues` | pollinations_nodes.py:17 | every declared model choice is made of unreserved characters, so it goes into the query unescaped |
| `ImageGen.QueryRoundTrip` | pollinations_nodes.py:34 | the query is exactly model, width, height, seed and `nologo=true`, in that order, and it reads back as the given model and numbers |
| `ImageGen.UrlRoundTrip` | pollinations_nodes.py:34 | reading the URL back gives exactly the prompt bytes, model, width, height and seed it was built from, in the fixed parameter order and with nothing else added |
| `ImageGen.BuildHeaders` | pollinations_nodes.py:36-39 | the headers are empty exactly when the key is absent or all whitespace. Otherwise they hold the single entry `Authorization = "Bearer " + strip(key)`, whose token is non-empty and has no surrounding whitespace |
| `ImageGen.Classify` | pollinations_nodes.py:44-51 | status 200 gives the image (the body's bytes). Any other status gives an error carrying that status and the message `Pollinations API Error: <status> - <body>`, never an image |
| `ImageGen.Generate` | pollinations_nodes.py:32-51 | for inputs within the declared bounds (256 ≤ width, height ≤ 4096 and 0 ≤ seed ≤ 2^64-1), the request is the built URL plus the header map described above, and the outcome is an image exactly on status 200 |

## Left out

- HTTP calls (`requests.get` for both listings and for the image). These are network I/O. Their parsed results and the status code are parameters.
- Decoding the image with PIL and converting it to a float tensor (`/ 255.0`). This is a foreign library plus floating point. The image outcome carries the raw response bytes.
- The regex rewrite of the README sections (`re.sub` with lazy DOTALL/IGNORECASE patterns). Only the list each section receives is modelled.
- File reads and writes, and `json.dump` serialisation. These are I/O. The effects record what would be written.
- `git_sync_everything`. This is subprocess plumbing, modelled only as the `GitSync` effect the guard allows.
- `js/pollinations_settings.js` and `__init__.py`. These are host UI and plugin registration.
- All `print` logging.
- Listing values outside the modelled record shape. This covers a `name` that is JSON `null` or not a string, an `output_modalities` that is `null` (Python would raise `TypeError`, so the fetch would return `None`), and one that is a string (Python would test for a substring). Records carry an optional string name, a boolean flag and an optional list of strings.
- The order of the two listing calls. The second call is skipped when the first fails, which the model cannot observe, because both responses are inputs.
- The UTF-8 encoding step of `quote` (and the `UnicodeEncodeError` a lone surrogate would raise). The prompt is taken as its UTF-8 bytes.
- The host's enforcement of the declared input choices and bounds. `Generate` requires the numeric bounds. Its `model` is any string.
- ImageGen.UrlRoundTrip: requires a model made of unreserved characters. The source inserts `model` unescaped, so a name containing `&` or `?` would not read back. All declared choices satisfy the requirement (`ModelChoicesAreQueryValues`).
- `Unquote` is a strict percent-decoder written as the partner of `quote`. It is not a model of `urllib.parse.unquote`, which the core does not call.
