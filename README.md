# eat: the meal and vendor store, modelled in Dafny

The repository serves two small web applications over the same two CSV files. The file `db.csv`
holds vendors: a name and a weight used to pick a vendor at random. The file `db_meal.csv` holds
meals: a date, an order, a price, a rating and an image name.

- The management service (`server_manage.py`) keeps ratings as whole points 1..5.
- The public service (`server.py`) keeps ratings as half points 0.5..5.

In both services the list handlers (`get_vendors`, `get_meals`) only read a file. Every handler that
changes a collection does these steps:

1. read the whole file and check the request; `add_*` checks the request fields first, while
   `update_*` and `delete_*` read first and then check the index and the fields;
2. change one element, or append one, or pop one;
3. write the whole list back;
4. answer with a fresh read.

`upload_image` touches neither CSV file; only its file-name checks are modelled.

The model treats each file as the sequence of rows the CSV reader yields from it. Each row is a record
of optional text cells.

- `Store.Database` is a class whose two fields are those row sequences. Its methods follow the
  handlers statement by statement.
- Each method is proved against a pure function of the rows it read, from the modules `Vendors`,
  `Meals` and `Ratings`.
- The properties of those functions are lemmas:
  - reading what was written gives it back;
  - the checks reject exactly the documented inputs;
  - partial updates keep absent fields;
  - delete removes exactly one element.

Two behaviours of the code are modelled as written, not as one might expect:

- A vendor's `id` is its raw row number in the file, counting blank-name rows that the reader skips.
  The handlers, however, index by list position (`Vendors.IdsCountSkippedRows`).
- Meals are read sorted by date descending, with ties broken by row number descending. Every meal
  handler writes that sorted list back. The next read therefore reverses the order of meals that
  share a date, and `MealOrder.SaveThenRead` proves exactly that flip.

Numbers:

- Prices are exact decimals (`Numbers.Decimal`).
- Rates are integers: whole points under `Ratings.Service.Manage`, half points 1..10 (for 0.5..5)
  under `Ratings.Service.Public`.
- Python's `int()` and `float()` of request values and of CSV cells are written out:
  - truncation toward zero;
  - parsing of decimal literals;
  - round-half-even for the public rate.

## Model

| member | source | states |
|---|---|---|
| Text.StripSpec | server_manage.py:44 | `strip()` yields a string with no surrounding whitespace, keeps an already trimmed string, is idempotent, and is empty exactly when every character is whitespace |
| Numbers.ParseInt | server_manage.py:48 | `int()` of a cell succeeds exactly when the stripped text is an optional sign followed by at least one digit and nothing else; the result is negative only after a minus sign |
| Numbers.ParseDecimal | server_manage.py:72 | `float()` of a cell succeeds exactly when the stripped text, after an optional sign, is digits with at most one point and at least one digit; the result is a normalised decimal |
| Text.StripPadded | server_manage.py:44 | `strip()` of a trimmed text padded with white space on either side is that text |
| Numbers.ParseDigitLiteral | server_manage.py:48 | `int()` of an optional sign and digits, padded with white space, is the number the digits spell, negated after a minus |
| Numbers.PaddedIntExample | server_manage.py:156 | `int(" 080")` is 80 |
| Numbers.PlusIntExample | server_manage.py:156 | `int("+5")` is 5 |
| Numbers.ParsePaddedPoint | server_manage.py:72 | `float()` of an optional sign, digits, a point and digits (either side may be empty, not both), padded with white space, is the number they spell |
| Numbers.ParsePaddedWhole | server_manage.py:72 | `float()` of an optional sign and digits without a point, padded with white space, is that integer |
| Numbers.TrailingPointExample | server.py:228 | `float("5.")` is 5.0 |
| Numbers.LeadingPointExample | server.py:228 | `float(" .5")` is 0.5 |
| Numbers.Round | server.py:74 | `round()` gives an integer within half a unit of the number, and the even one when the number lies exactly halfway |
| Numbers.ParseFormatInt | server_manage.py:60 | the integer a weight is written as reads back as the same integer with `int()` |
| Numbers.ParseFormatDecimal | server_manage.py:104 | the decimal a price is written as reads back as the same price with `float()` |
| Requests.IntOf | server_manage.py:156 | `int()` of a JSON integer is that integer, of a boolean 1 or 0, of a string its parse as an integer literal, of null or an array/object fails, and of a float is the float truncated toward zero |
| Requests.FloatOf | server.py:228 | `float()` yields a normalised decimal: of an integer or a boolean that number, of a float that float, of a string its parse as a decimal literal; of null or an array/object it fails |
| Requests.NumberOf | server_manage.py:237 | a value can be compared with a number exactly when it is a bool, integer or float, and then it compares as its `float()` |
| Base.ItemAt | server_manage.py:110-114 | the lookup succeeds exactly for an index inside the list, and then yields the element at that position |
| Vendors.VendorOf | server_manage.py:44-51 | a row is kept exactly when its stripped name is non-empty; the vendor's name is that stripped name and its weight is `int()` of the weight cell, or 0 when the cell is missing or does not parse |
| Vendors.VendorsOf | server_manage.py:43-52 | the list read has at most one entry per row; each entry's id is a row number whose row parses to that vendor; ids strictly increase |
| Vendors.ReadKeepsNamedRows | server_manage.py:43-51 | every row with a non-blank name appears in the list read, with its row number as id |
| Vendors.IdsCountSkippedRows | server_manage.py:43-51 | a blank-name row followed by a named row reads as one vendor whose id is 1, not 0 |
| Vendors.BlankRowSkipped | server_manage.py:44-46 | a row whose name is empty or only whitespace yields no vendor: no entry of the list read carries its row number |
| Vendors.UnparsedWeightIsZero | server_manage.py:47-50 | a weight cell that is missing or that `int()` rejects reads as weight 0 |
| Vendors.ReadIsWellFormed | server_manage.py:44-46 | every vendor read has a non-empty, stripped name |
| Vendors.RowsOf | server_manage.py:55-60 | one row per vendor, in list order, holding its name and `str()` of its weight |
| Vendors.ReadSavedRow | server_manage.py:55-60 | the row written for a vendor with a stripped, non-empty name reads back as that vendor |
| Vendors.VendorRoundTrip | server_manage.py:55-60 | writing a list of such vendors and reading it back yields the list numbered 0..n-1 |
| Vendors.ReadKeptLastRow | server_manage.py:43-51 | appending a named row appends one vendor whose id is that row's number |
| Vendors.CheckWeight | server_manage.py:155-161 | a weight passes exactly when `int()` of it succeeds and is not negative; it is then that integer; otherwise the error says which check failed |
| Vendors.AddVendor | server_manage.py:147-170 | blank name, failed `int()`, negative weight and duplicate stripped name are refused, each with its own error and in that order; otherwise the list grows by the one vendor, last, with weight 100 when none is given |
| Vendors.AddVendorWeights | server_manage.py:150-161 | a missing weight adds the vendor with weight 100, and weight -0.5 truncates to 0 and is accepted |
| Vendors.AddVendorKeepsInvariant | server.py:135-158 | adding keeps every name non-empty and stripped, and keeps names distinct |
| Vendors.UpdateVendor | server_manage.py:174-201 | an index outside the list is refused; a new name held at another position is refused; a weight given that `int()` rejects or that is negative is refused with that error; an empty name keeps the old name, a missing weight the old weight; every other vendor is unchanged |
| Vendors.UpdateVendorKeepsInvariant | server.py:162-189 | an accepted update keeps names non-empty, stripped and distinct |
| Vendors.ReplaceKeepsInvariant | server_manage.py:183-198 | replacing one vendor by one whose name is its own or is free elsewhere keeps names non-empty, stripped and distinct |
| Vendors.UpdateVendorOwnName | server_manage.py:184 | renaming a vendor to its own name is not a duplicate and changes nothing |
| Vendors.DeleteVendor | server_manage.py:205-213 | an index outside the list is refused; otherwise exactly that element is removed and the rest keep their order |
| Vendors.DeleteVendorKeepsInvariant | server.py:193-201 | deleting keeps names non-empty, stripped and distinct, and frees the deleted name |
| Vendors.DeleteUndoesAdd | server.py:135-201 | deleting the last position right after an accepted add restores the list |
| Ratings.ReadRate | server.py:72-76 | a missing or empty cell reads as 1 (management) or 1.0, that is 2 half points (public); otherwise the management reader takes `int()` of the cell and 1 when it fails, and the public reader takes twice `float()` of the cell rounded and clamped to 1..10 half points, and 2 when it fails |
| Ratings.CheckRate | server_manage.py:240 | an accepted rate is one the service can store |
| Ratings.CheckWholeRate | server_manage.py:240-248 | a rate is accepted exactly when it is a number in 1..5, and is then stored as `int()` of it; null or a number outside 1..5 is out of range; a string or array raises |
| Ratings.CheckHalfRate | server.py:227-235 | an accepted rate is twice `float()` of the value and lies in 1..10; `float()` failing is its own error, and a number outside 0.5..5 or off the half step is refused as out of range |
| Ratings.PublicRateAccepted | server.py:227-235 | the public check accepts exactly the values whose `float()` is one of 0.5, 1, ..., 5 |
| Ratings.HalfStepAccepted | server.py:235 | twice an accepted half-step value, normalised, is exactly its half-point count |
| Ratings.WriteRateReadsBack | server_manage.py:105 | the management writer's cell reads back with `int()` as the rate, 0 becoming 1; the public writer's cell (server.py:104) reads back with `float()` as half the half points, 0 becoming 1.0 |
| Ratings.RateRoundTrip | server.py:73-74 | a rate the service can store reads back unchanged after that service writes it |
| Ratings.ManageZeroRate | server_manage.py:76 | a stored 0 reads as 0, while the writer turns rate 0 into 1 |
| Ratings.ManageReadsPublicRate | server_manage.py:75-78 | a rate the public service writes ("4.0") fails `int()` in the management reader and reads as 1 |
| Ratings.PublicReadsManageRate | server.py:73-74 | a whole-point rate k written by the management service reads as 2k half points in the public service |
| Meals.MealOf | server_manage.py:71-87 | date and image are the stripped cells; the order is the stripped `order` cell, or the stripped `order_text` cell when `order` is missing or empty; the price is `float()` of its cell, and 0 when the cell is missing, empty or does not parse; the rate is the service's reading of its cell |
| Meals.Parsed | server_manage.py:70-87 | the parsed list has one meal per row, tagged with its row number |
| Meals.ParsedLast | server_manage.py:70-87 | parsing one more row appends that row's meal |
| Meals.SaveRowCells | server_manage.py:101-107 | a written row has stripped date, order and image cells (a field already stripped is written as it is), no legacy `order_text` cell, a price cell that `float()` reads back as the price, and the rate cell of the service's writer |
| Meals.SaveRows | server_manage.py:96-107 | one row is written per meal, in list order |
| Meals.SaveRowsLast | server_manage.py:100-107 | writing one more meal appends that meal's row |
| Meals.MealRoundTrip | server_manage.py:96-107 | a well-formed meal written by a service and read back by it is unchanged |
| Meals.ParsedSaved | server.py:95-106 | writing well-formed meals and parsing the rows gives them back, tagged 0..n-1 |
| Meals.ReadIsWellFormed | server_manage.py:71-87 | every meal read is well-formed, except a management rate cell holding 0 |
| Meals.CheckPrice | server_manage.py:237-238 | a price passes exactly when it is a number and not negative, and is kept as its `float()`; null and a negative number are refused with the price error; a string or array raises |
| Meals.AddMeal | server_manage.py:222-251 | blank date, blank order, bad price and bad rate are refused, each with its own error and in that order; otherwise the meal is appended last with stripped fields, its price's `float()` and the checked rate |
| Meals.AddMealKeepsWellFormed | server.py:210-247 | adding keeps every meal well-formed |
| Meals.UpdateMeal | server_manage.py:257-290 | an index outside the sorted list is refused; empty date or order and absent price, rate or image keep the old value; a bad price is refused before a bad rate, each with its own error; only that position changes |
| Meals.EmptyUpdateKeepsMeal | server_manage.py:269-286 | an update supplying nothing leaves the list as it was |
| Meals.UpdateMealKeepsWellFormed | server.py:251-288 | updating keeps every meal well-formed |
| Meals.DeleteMeal | server_manage.py:294-302 | an index outside the sorted list is refused; otherwise exactly that position is removed |
| Meals.DeleteMealKeepsWellFormed | server.py:292-300 | deleting keeps every meal well-formed |
| MealOrder.KeyLessTransitive | server_manage.py:90 | the sort key order (date, row number) is transitive |
| MealOrder.KeyLessTotal | server_manage.py:90 | two entries with different row numbers are ordered one way or the other |
| MealOrder.KeyLessAsymmetric | server_manage.py:90 | the sort key order is asymmetric |
| MealOrder.Insert | server_manage.py:90 | inserting adds exactly the one element |
| MealOrder.SortDesc | server_manage.py:90 | the sort is a permutation |
| MealOrder.InsertSorted | server_manage.py:90 | inserting an entry with a new row number into a descending list keeps it descending |
| MealOrder.SortDescSorted | server_manage.py:90 | sorting entries with distinct row numbers yields them in descending key order |
| MealOrder.SortedUnique | server_manage.py:90 | two descending permutations of the same entries are equal, so the sort's result is determined by its key |
| MealOrder.MealsOf | server_manage.py:63-93 | the list read has one meal per row and ids exactly 0..n-1 |
| MealOrder.ReadMealsOrder | server.py:87-91 | the meals read are a permutation of the parsed rows, in descending (date, row number) order, renumbered |
| MealOrder.ReadMealsNewestFirst | server_manage.py:89-90 | the dates of the meals read never increase |
| MealOrder.Reverse | server_manage.py:90 | reversal maps position i to position n-1-i |
| MealOrder.ReversePermutes | server_manage.py:90 | reversal is a permutation |
| MealOrder.ReverseReverse | server_manage.py:90 | reversing twice gives the list back |
| MealOrder.RunLength | server_manage.py:90 | the leading run of equal dates is non-empty and maximal |
| MealOrder.FlipTies | server_manage.py:90-92 | flipping the runs of equal dates keeps the length |
| MealOrder.FlipRuns | server_manage.py:90-92 | flipping the runs of tagged entries is a permutation |
| MealOrder.FlipRunsRecords | server_manage.py:90-92 | flipping tagged runs and then dropping the tags is flipping the meals |
| MealOrder.AfterRunOlder | server_manage.py:89-90 | in a newest-first list, every meal after the first run is strictly older |
| MealOrder.RunReversedSorted | server_manage.py:90 | one date's entries in ascending row order, reversed, are in descending key order |
| MealOrder.ConcatSorted | server_manage.py:90 | two descending lists, every key of the second below every key of the first, concatenate to a descending list |
| MealOrder.FlipRunsSorted | server_manage.py:90 | rows written from a newest-first list sort into that list with each run of equal dates reversed |
| MealOrder.SaveThenRead | server_manage.py:96-107 | writing a newest-first list of well-formed meals and reading it back yields the list with each run of equal dates reversed |
| MealOrder.FlipTiesKeepsDates | server_manage.py:90 | the flip keeps the date at every position |
| MealOrder.FlipTiesInvolution | server_manage.py:90-92 | flipping twice gives the list back: a second save and read restores the first order |
| MealOrder.SameDaySwap | server_manage.py:90 | two meals of one date, written in one order, come back swapped |
| MealOrder.ViewWellFormed | server_manage.py:63-93 | the meals read are well-formed when no management rate cell holds 0 |
| MealOrder.DeleteThenRead | server_manage.py:294-302 | after a delete, the next read is the sorted list without that position, with its same-date runs flipped |
| MealOrder.UpdateThenRead | server_manage.py:257-290 | after an update that keeps the date, the next read is the updated sorted list with its same-date runs flipped |
| Uploads.LastIndexOf | server_manage.py:125 | the result is the last position holding the character, or -1 when there is none |
| Uploads.Ext | server_manage.py:125 | the extension is empty, or a suffix starting with the only dot in it and holding no slash |
| Uploads.ExtOfJoined | server_manage.py:125 | a name whose last component has something other than a dot before its last dot has exactly the text from that dot as its extension |
| Uploads.AllowedFileExactly | server_manage.py:124-126 | such a name passes exactly when its extension, lowercased, is .png, .jpg, .jpeg, .gif or .webp |
| Uploads.AllowedFileHasExtension | server_manage.py:17 | a name that passes has an extension of at least four characters, and a name without an extension never passes |
| Uploads.DotFileRefused | server_manage.py:124-126 | a last path component that starts with its only dot (".png", "img/.gif") has no extension and is refused |
| Uploads.UpperCaseAccepted | server_manage.py:124-126 | "photo.PNG" is accepted |
| Uploads.UploadImage | server_manage.py:306-321 | no file part, an empty name and a name outside the whitelist are refused in that order; otherwise the stored name is the hex string followed by the lowercased extension of the sanitised name |
| Uploads.StoredNameAllowed | server_manage.py:316-321 | when sanitising keeps the extension, the stored name ends in a whitelisted extension |
| Store.Database.constructor | server_manage.py:20-33 | a fresh store has no vendor and no meal rows |
| Store.Database.ReadVendors | server_manage.py:36-52 | the loop yields the list `VendorsOf` gives for the stored rows |
| Store.Database.SaveVendors | server_manage.py:55-60 | the vendor file becomes one row per vendor; the meal file is untouched |
| Store.Database.ReadMeals | server_manage.py:63-93 | the parse loop, the sort and the renumbering loop yield `MealsOf` of the stored rows |
| Store.Database.SaveMeals | server.py:95-106 | the meal file becomes one row per meal, written by the service's writer; the vendor file is untouched |
| Store.Database.GetVendorByIndex | server_manage.py:110-114 | yields the list read and the vendor at that position, or none outside it |
| Store.Database.GetMealByIndex | server_manage.py:117-121 | yields the sorted list read and the meal at that position, whose id is the position, or none outside it |
| Store.Database.AddVendor | server_manage.py:147-170 | refuses exactly as `Vendors.AddVendor` does and then writes nothing; otherwise writes its list and answers with it numbered |
| Store.Database.UpdateVendor | server.py:162-189 | refuses exactly as `Vendors.UpdateVendor` does and then writes nothing; otherwise writes its list and answers with it numbered |
| Store.Database.DeleteVendor | server_manage.py:205-213 | refuses exactly as `Vendors.DeleteVendor` does and then writes nothing; otherwise writes the shortened list and answers with it numbered |
| Store.Database.AddMeal | server.py:210-247 | refuses exactly as `Meals.AddMeal` does and then writes nothing; otherwise writes the sorted list with the meal appended and answers with a fresh read |
| Store.Database.UpdateMeal | server_manage.py:257-290 | refuses exactly as `Meals.UpdateMeal` does and then writes nothing; otherwise writes the updated sorted list and answers with a fresh read |
| Store.Database.DeleteMeal | server.py:292-300 | refuses exactly as `Meals.DeleteMeal` does and then writes nothing; otherwise writes the sorted list without that position and answers with a fresh read |
| Store.SingleMealView | server_manage.py:96-107 | a single well-formed meal written and read back is that meal with id 0 |
| Store.TestVendorAdded | tests/test_database.py:41-50 | on an empty store, adding "Test Vendor" with weight 80 yields that vendor alone |
| Store.AddAndReadVendor | tests/test_database.py:41-55 | on a fresh store the add answers with the one vendor, and the file holds one row whose weight reads back as 80 |
| Store.NoodlesAdded | tests/test_database.py:57-75 | adding the test meal to an empty list yields that meal alone, and the meal is well-formed |
| Store.NoodlesUpdated | tests/test_database.py:77-84 | updating position 0 with price 12.0 and rate 5 changes exactly those two fields |
| Store.AddAndUpdateMeal | tests/test_database.py:57-89 | the add answers with the one meal; the update answers with price 12 and rate 5; the file's cells read back as 12.0 and 5 |

## Left out

- Flask routing, JSON decoding, CORS, the HTML pages, `serve_image` and `app.run` are not modelled. They are framework I/O. A request body is given as its decoded fields, and a body that is not JSON (`request.json` being None) is not modelled.
- File access is not modelled. Each file is the sequence of rows its reader would yield, so a missing file reads as no rows. Directory creation in `ensure_db` is left out.
- CSV quoting and escaping are not modelled: a row is a record of optional text cells.
- `uuid.uuid4().hex` and werkzeug's `secure_filename` are parameters of `Uploads.UploadImage`. `file.save` is not modelled. These are random or foreign code.
- Concurrent requests and the lost updates they can cause are not modelled, because the code has no locking.
- Numbers.ParseInt: refuses underscores ("1_000") and non-ASCII digits, which Python's `int()` accepts; such a weight or rate cell reads as the default (0 or 1) instead of its value.
- Numbers.ParseDecimal: exponent forms, `inf`, `nan`, underscores and non-ASCII digits in number literals are refused rather than read. Two consequences differ from the source:
  - A public-service rate cell "inf" or "1e999" makes `round(rate * 2)` raise OverflowError. The `except (TypeError, ValueError)` does not catch it, so every read of the meals fails (server.py:72-76). The model reads that cell as 2 half points.
  - A JSON string rate "nan" passes `float()`. The `round()` in the range test of `add_meal` (server.py:232) then raises ValueError outside the `try`, which gives an HTTP 500. The model answers `RateNotNumber`.
- Numbers.FormatDecimal: writes a price as a plain decimal ("12.0", "10.5"), not Python's `repr` of a binary float. Prices are exact decimals, so binary rounding is not modelled.
- Ratings.CheckHalfRate: accepts only exact multiples of 0.5. The code's tolerance of 1e-6 (server.py:232, 280) exists only for binary floats.
- Text.Lower: lowercases ASCII letters only.
- Uploads.Ext: follows `posixpath.splitext`, with "/" as the only separator. The model assumes a POSIX host; on Windows `os.path.splitext` also splits at "\\".
- Meals.ImageOf: takes the image as a string. `str()` of a non-string image value is not modelled.
- JSON `NaN`, `Infinity` and `-Infinity`, which Flask's decoder accepts, are not values of `Requests.Value`. With them the source behaves differently: a NaN rate passes `rate < 1 or rate > 5`, and then `int()` raises.
- Python TypeErrors that escape a handler (comparing a string price with 0, say) are answered as `Error.Uncaught` with nothing written. The HTTP 500 page itself is not modelled.
- MealOrder.UpdateThenRead: covers updates that keep the date. An update that changes a date moves the meal to another run, and that is not stated as a lemma; `Store.Database.UpdateMeal` still states the exact rows written.
