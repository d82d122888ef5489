# bitcoin-ts-1: artifact selection and quote reshaping, in Dafny

This project models the two pieces of logic in the bitcoin-ts-1 scripts that
are more than library calls:

- **`load_latest_model`** (sources/model_loader.py) takes a directory of
  trained SARIMA artifacts. It keeps the names that start with
  `"<key>_model"` and end with `".joblib"`, sorts them in descending order and
  takes the first. It then cuts the timestamp token out of that name, derives
  the metadata sidecar name `"<key>_metadata_<timestamp>.json"` and loads the
  metadata if that file exists. With no matching name it raises
  `FileNotFoundError`.
- **`fetch_bitcoin_prices` and the command line** (get_from_cmc.py) turn each
  CoinMarketCap quote into a flat row. The row's `date` is the first ten
  characters of the quote's timestamp, and the OHLCV and market-cap fields come
  from `quote["USD"]`. The rows are sorted by date. The command line accepts
  exactly two dates and writes to `data/btc/btc_<first four chars of start>.csv`.

Modules:

- `Wrappers` (wrappers.dfy): `Option` and `Result`. These stand for Python's
  `None` and for raised exceptions.
- `Strings` (strings.dfy): the Python `str` operations the scripts use, with
  CPython's semantics. These are slicing `[:n]`, `startswith`, `endswith`,
  `split`, `replace(pat, "")` and the ordering of strings. Python orders strings
  code point by code point, with a proper prefix first. Dafny's `<` on
  sequences means "proper prefix", so this order is defined as `LexLe`. Its
  lemmas prove it is a total order.
- `ModelLoader` (model_loader.dfy): `load_latest_model` as a function of a
  `ModelDir` value. A `ModelDir` holds the listing, the payload
  `joblib.load` returns for each artifact it can read, and the metadata files
  that exist. A metadata file maps to `None` when `json.load` raises on it.
- `CmcFetch` (cmc_fetch.dfy): the row-building loop as a method with a `for`
  loop, the date sort as a function, `fetch_bitcoin_prices`, and the `__main__`
  block.

Behaviour of the scripts worth knowing:

- An empty quote list makes `fetch_bitcoin_prices` fail. `pd.DataFrame([])`
  has no `date` column, so `df["date"]` raises `KeyError`. The model returns
  `Failure(NoDateColumn)`.
- Artifact names are not checked against a fixed format. The prefix test has
  no trailing underscore, so `sarima_model.joblib` is a candidate whose
  timestamp is `model`.
- `.replace(".joblib", "")` removes every occurrence of `.joblib`, not only the
  one at the end.
- The fetch writes the rows it received, sorted. It does not merge them with an
  existing file, does not remove duplicates and does not replace the file
  atomically.

## Model

| member | source | states |
|---|---|---|
| `ModelLoader.Candidates` | sources/model_loader.py:19-25 | a name is kept exactly when it is listed, starts with `key + "_model"` and ends with `".joblib"` |
| `ModelLoader.SortDesc` | sources/model_loader.py:19-25 | `sorted(..., reverse=True)` returns a permutation of the candidates that is descending in Python's string order |
| `ModelLoader.HeadOfSortDescIsGreatest` | sources/model_loader.py:33 | the first element of the descending sort is one of the candidates and is greater than or equal to every candidate |
| `ModelLoader.IsCandidate` | sources/model_loader.py:22 | the comprehension's test: the name starts with `key + "_model"`, with no trailing underscore, and ends with `".joblib"`. It is a definition, used by the contracts of `Candidates`, `Selected` and `LoadLatestModel` and by `PrefixWithoutUnderscore` |
| `ModelLoader.Selected` | sources/model_loader.py:19-33 | `model_files[0]` is absent exactly when no listed name is a candidate, and otherwise it is a listed candidate |
| `ModelLoader.SelectedIsGreatestCandidate` | sources/model_loader.py:19-33 | the selected file is greater than or equal to every listed candidate in Python's string order |
| `ModelLoader.SelectionIgnoresListingOrder` | sources/model_loader.py:19-25 | two listings with the same names give the same selection, whatever their order or repetitions |
| `ModelLoader.NotFoundIffNoCandidate` | sources/model_loader.py:27-30 | loading fails with the not-found error, naming the key and the directory, exactly when no listed name is a candidate |
| `ModelLoader.LoadLatestModel` | sources/model_loader.py:5-48 | a successful load returns a listed candidate with that file's payload, and returns metadata only when the derived metadata file exists. `NotFoundIffNoCandidate`, `LoadOutcomeOfGreatestCandidate` and `LoadedIsLatestWithItsMetadata` give the outcome for every input |
| `ModelLoader.LoadOutcomeOfGreatestCandidate` | sources/model_loader.py:33-48 | when `m` is the greatest listed candidate and `mf` its metadata name, an unloadable `m` fails with `ArtifactLoadFailed(m)`. An existing `mf` that does not parse fails with `MetadataParseFailed(mf)`. Otherwise the load succeeds with `m` and its payload. Its metadata is `None` when `mf` does not exist and is the parsed record when it does, so missing metadata never makes the load fail |
| `ModelLoader.LoadedIsLatestWithItsMetadata` | sources/model_loader.py:33-48 | a successful load returns the greatest candidate as `model_file` and that file's payload; its metadata is `None` exactly when `key + "_metadata_" + timestamp + ".json"` is absent, and otherwise is the record parsed from that file |
| `ModelLoader.TimestampOf` | sources/model_loader.py:34 | the extracted timestamp never contains `_` |
| `ModelLoader.MetadataFileName` | sources/model_loader.py:40 | the metadata name is `key + "_metadata_"`, then the timestamp, then `".json"`. The timestamp can be read back from the name, so different timestamps give different metadata files |
| `ModelLoader.TimestampOfWellFormedName` | sources/model_loader.py:34-40 | for `key + "_model_" + ts + ".joblib"` with `ts` free of `_` and of `".joblib"`, the name is a candidate, the extracted timestamp is `ts`, and the metadata name is `key + "_metadata_" + ts + ".json"` |
| `ModelLoader.ArtifactOrderIsTimestampOrder` | sources/model_loader.py:19-25 | for timestamps of equal width, one artifact name is less than or equal to another exactly when its timestamp is, so the greatest name carries the newest timestamp |
| `ModelLoader.PrefixWithoutUnderscore` | sources/model_loader.py:22-34 | because the prefix test has no trailing underscore, `key + "_model.joblib"` is a candidate for every key, and its timestamp is `model` (`sarima_model.joblib` for key `sarima`) |
| `ModelLoader.EveryJoblibRemoved` | sources/model_loader.py:34 | every `".joblib"` in the last segment is removed, not only the suffix: `key + "_model_" + ts + ".joblib.joblib"` has timestamp `ts` (`sarima_model_v.joblib.joblib` gives `v`) |
| `Strings.Split` | sources/model_loader.py:34 | `split("_")` returns at least one segment, no segment contains the separator, and joining the segments with it gives the input back |
| `Strings.SplitJoin` | sources/model_loader.py:34 | splitting a join of separator-free segments gives back the segments |
| `Strings.LastSegmentIsSuffix` | sources/model_loader.py:34 | `split("_")[-1]` is a suffix of the name without `_`; it is either the whole name or comes right after a `_` |
| `Strings.LastSegmentAfterLastSeparator` | sources/model_loader.py:34 | when `b` has no `_`, the last segment of `a + "_" + b` is `b` |
| `Strings.RemoveAll` | sources/model_loader.py:34 | `replace(pat, "")` never lengthens its input and introduces no character that was not there. An empty pattern leaves the input as it is |
| `Strings.RemoveAllAbsent` | sources/model_loader.py:34 | a string that does not contain the pattern is returned unchanged |
| `Strings.RemoveAllKeepsCleanPrefix` | sources/model_loader.py:34 | when the pattern occurs in `t + pat` only at the end, removing every occurrence from `t + pat + rest` gives `t` followed by `rest` with every occurrence removed |
| `Strings.OccursOnlyAtEnd` | sources/model_loader.py:34 | a pattern whose first character does not reappear in it (such as `".joblib"`) occurs in `t + pat` only at the end, when `t` does not contain it |
| `Strings.StartsWithIsPrefix` | sources/model_loader.py:22 | `s.startswith(p)` holds exactly when `p` is a prefix of `s` |
| `Strings.EndsWithIsSuffix` | sources/model_loader.py:22 | `s.endswith(p)` holds exactly when `s` is some string followed by `p` |
| `Strings.LexLeFirstDifference` | sources/model_loader.py:19-25 | `LexLe` is Python's string order: `a <= b` exactly when `a` is a prefix of `b`, or `a` has the smaller character at the first index where the two differ |
| `Strings.LexLeTotal` | sources/model_loader.py:19-25 | any two strings are comparable in Python's order, so `sorted` has a greatest candidate to put first |
| `Strings.LexLeAntisymmetric` | sources/model_loader.py:19-25 | two strings each at most the other are equal |
| `Strings.LexLeTransitive` | sources/model_loader.py:19-25 | Python's string order is transitive |
| `Strings.Take` | get_from_cmc.py:68 | `s[:n]` is a prefix of `s` of length `min(n, len(s))` |
| `CmcFetch.BuildRows` | get_from_cmc.py:65-75 | there is one row per quote, in quote order; each row's date is the first ten characters of the quote's timestamp, and its open, high, low, close, volume and market cap are those of `quote["USD"]` |
| `CmcFetch.SortByDate` | get_from_cmc.py:77-79 | `sort_values("date")` returns a permutation of the rows in ascending date order |
| `CmcFetch.SortedDateColumnIsDetermined` | get_from_cmc.py:79 | any two date-sorted permutations of the same rows have the same date column, so the unstable sort only reorders rows that share a date |
| `CmcFetch.FetchBitcoinPrices` | get_from_cmc.py:63-87 | it fails exactly when there are no quotes; otherwise it returns one row per quote, in ascending date order, as a permutation of the rows built from the quotes |
| `CmcFetch.ParseArgs` | get_from_cmc.py:98-111 | the command line proceeds exactly when `sys.argv` holds the script name and two arguments, and fails with the usage error otherwise. When it proceeds, the two arguments are the start and end dates and the output is `OutputCsv(start)` |
| `CmcFetch.OutputCsv` | get_from_cmc.py:110-111 | the output is a `.csv` file whose name starts with `data/btc/btc_`. The first four characters of the start date can be read back from the name |
| `CmcFetch.OutputCsvOnePerYear` | get_from_cmc.py:110-111 | two runs write the same file exactly when their start dates have the same first four characters |
| `CmcFetch.UsageExample` | get_from_cmc.py:95-96 | `get_from_cmc.py 2024-01-01 2024-12-31` fetches that range into `data/btc/btc_2024.csv` |
| `CmcFetch.Run` | get_from_cmc.py:93-117 | a wrong argument count fails with the usage error; two dates and no quotes fail with the missing date column; otherwise the rows in `data/btc/btc_<start[:4]>.csv` are the built rows, sorted by date |

## Left out

- HTTP request, status check and `raise_for_status` (get_from_cmc.py:52-63): network I/O. The decoded `data["quotes"]` list is an input, and a failed request is not modelled.
- Loading the API key with `load_dotenv` and the `RuntimeError` when it is missing (get_from_cmc.py:12-25): environment I/O, run at import time before the argument check.
- `time.sleep`, the `print` calls, `os.makedirs` and `to_csv` (get_from_cmc.py:42, 81-86): I/O. `Run` returns the path and the rows that would be written.
- `pd.to_datetime` (get_from_cmc.py:78): the sort compares the `YYYY-MM-DD` strings. For well-formed dates, string order and date order agree. A date pandas cannot parse is not modelled, and neither is the datetime text the CSV writer puts back.
- Prices are `real` values. They are only copied, so floating-point rounding plays no part.
- `os.listdir`, `joblib.load`, `os.path.exists`, `json.load` and `os.path.join` (sources/model_loader.py:21, 36-46): filesystem I/O and foreign deserialisers. They are the fields of `ModelDir`, and files are named without the directory prefix.
- Codes/get_data.py: a yfinance call, a column rename and a CSV write, with no logic of its own.
- sources/streamlit_app.py: UI rendering around the SARIMA model's floating-point forecast and today's date.
- sourcess/clean_cache.py: a recursive filesystem delete and module reloading.
- The default arguments `model_dir="..\\Models"` and `model_key="sarima"` (sources/model_loader.py:6-7): `LoadLatestModel` always takes both, as the directory value and the key.
- The `sleep_sec=1.2` parameter of `fetch_bitcoin_prices` (get_from_cmc.py:34): it only sets how long `time.sleep` waits, which is I/O timing.
- ModelLoader.LoadedIsLatestWithItsMetadata and ModelLoader.LoadOutcomeOfGreatestCandidate: a metadata file that holds JSON `null` is not told apart (sources/model_loader.py:46). `json.load` returns `None` for it, so Python returns `None` although the file exists. In `ModelDir`, `Some(v)` may stand for a parsed `null`, so the model's `None` means only that the metadata file is absent.
- Strings.Split: covers a one-character separator only, which is the only kind the scripts use.
