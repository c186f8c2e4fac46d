# Teaching exercises, modelled in Dafny

This project models the pure logic found in a collection of small Python exercises:

- **Bag-of-words vectoriser.** `CountVectorizer` appears in `classes_sem.py` and again in `count_vectorizer.py`, with the same `fit`, `transform`, `fit_transform` and `get_feature_names` code (docstrings and annotations apart). Only the `classes_sem.py` class adds `tf_transform` and `idf_transform`. The model covers:
  - the vocabulary that `fit` builds;
  - the count matrix that `transform` produces;
  - the document-frequency count in `idf_transform` and `TfidfTransformer.fit_transform`;
  - the output shape and error cases of `TfidfTransformer` and `TfidfVectorizer`.
- **One-hot encoder.** `fit_transform(*args)` in `issue_4/issue_4.py`.
- **Morse encoder.** `encode` and its `LETTER_TO_MORSE` table in `issue_1/issue_1.py`.
- **Department aggregation.** In `csv_parsing.py`, two loops run over rows that have already been read from the file:
  - the grouping loop of `read_department_hierarchy`;
  - the aggregation loop of `calculate_department_summary`.
- **Pizza value object.** In `pizza.py`: the size check of the constructor, equality, `get_receipt`, and the recipes of the three subclasses.

Modules and files:

| file | module | contents |
|---|---|---|
| `wrappers.dfy` | `Wrappers` | Python exceptions (`PyError`), `Result` and `Option` |
| `seqs.dfy` | `Seqs` | counting, summing, and `Dedup` (first-seen de-duplication, the shared reference for "distinct, in order of first appearance") |
| `text.dfy` | `Text` | `str.split()`, `str.lower()`, `' '.join` |
| `vectorizer.dfy` | `CountVectorizer` | the count vectoriser |
| `tfidf.dfy` | `Tfidf` | term and document frequencies, the TF-IDF transformer and vectoriser |
| `one_hot.dfy` | `OneHot` | the one-hot encoder |
| `morse.dfy` | `Morse` | the Morse table and encoder |
| `departments.dfy` | `Departments` | the two loops of `csv_parsing.py` |
| `string_order.dfy` | `StringOrder` | Python's string order and `sorted` on lists of strings |
| `pizza.dfy` | `Pizzas` | the pizza classes |

Modelling choices:

- **Mutable objects.** Python objects that change state become immutable records. A method takes the current state and returns the new one.
- **Loops.** Loops that append become functions that recurse on the prefix of their input. The value after `k` iterations is therefore the function applied to the first `k` items.
- **Dictionaries.** Python dicts keep insertion order, and that order is visible in the output. A dict whose order matters is therefore modelled as its entries plus its keys in insertion order.
- **Exceptions.** An exception is an `Err` carrying the Python exception, so every error path stays in the model. Nothing is turned into a precondition.

Where the code and its documentation disagree, the model follows the code:

- **Row width in the transformer.** `TfidfTransformer.fit_transform` uses the first row's width for every row (`wrd = len(count_mtrx[0])`). `zip(*count_mtrx)` stops at the shortest row. So:
  - an empty matrix raises `IndexError`;
  - a row shorter than the first raises `IndexError`;
  - a longer row is cut to the first row's width.
- **Zero division.** A TF-IDF row raises `ZeroDivisionError` only when it is non-empty and sums to 0. An empty row divides nothing, because its comprehension has no elements. So a corpus with an empty document fails only when the vocabulary is non-empty.
- **One-hot encoder arguments.**
  - If the first argument is a list, it alone is used and any later arguments are ignored.
  - If the first argument is a string, every argument is a category. A later list argument then makes `set(...)` raise `TypeError`, because a list is unhashable.
- **Morse comma.** The Morse table's comma key is the two-character string `", "`, so a lone `,` raises `KeyError`.

`Morse.Decode` does not exist in the source. It reads a Morse signal back, and it exists only to state that a message without spaces can be recovered from its encoding. Reading back discards spaces; encoding keeps them (`Morse.EncodeKeepsSpace`).

## Model

| member | source | states |
|---|---|---|
| CountVectorizer.New | classes_sem.py:9-14 | a fresh vectoriser satisfies the representation invariant and knows no token |
| CountVectorizer.ValidColumn | classes_sem.py:26-34 | in a valid state every known token has a column in `[0, n)` and `feature_names_` at that column is the token again |
| CountVectorizer.ValidNoDups | classes_sem.py:32-34 | in a valid state `feature_names_` lists no token twice |
| CountVectorizer.AddToken | classes_sem.py:31-34 | one inner iteration of `fit`: an unseen token is appended and gets the next index, a known one changes nothing, and the invariant is kept |
| CountVectorizer.Fit | classes_sem.py:26-34 | whatever the earlier state, `fit` yields a valid state whose feature names are the corpus's distinct lowercased tokens in first-seen order and whose vocabulary keys are exactly the corpus's tokens |
| CountVectorizer.FitFirstSeenOrder | classes_sem.py:29-34 | column `i < j` means the token of column `i` first occurs earlier in the corpus (documents in order, tokens in order) |
| CountVectorizer.FitSize | count_vectorizer.py:7-16 | the vocabulary has as many entries as the corpus has distinct tokens |
| CountVectorizer.RefitDiscards | count_vectorizer.py:7-9 | refitting forgets a token of the earlier corpus that the new corpus lacks |
| CountVectorizer.CountRow | classes_sem.py:49-53 | a document vector has one entry per column, entry `i` counts the tokens equal to feature `i`, and the entries add up to the number of in-vocabulary tokens |
| CountVectorizer.Transform | classes_sem.py:47-56 | one row per document in input order, each as wide as the vocabulary, each entry the count of its token, out-of-vocabulary tokens ignored |
| CountVectorizer.TransformUnfitted | classes_sem.py:13-14 | before any fit every document's vector is empty |
| CountVectorizer.FitTransform | classes_sem.py:58-70 | `fit_transform` is `fit` then `transform` on the same documents, and every row sums to its document's token count |
| CountVectorizer.FitTransformColumnsUsed | classes_sem.py:58-70 | after `fit_transform` every column has a positive entry in some row |
| CountVectorizer.GetFeatureNames | count_vectorizer.py:34-35 | the feature names are the vocabulary keys ordered by index: position `i` holds the token whose index is `i`, and every key appears |
| Text.Split | classes_sem.py:30 | `str.split()` with no argument; a string that ends in a non-whitespace character has at least one token |
| Text.LowerFacts | classes_sem.py:31 | after `str.lower()` no capital A-Z is left, lowercasing again changes nothing, a character is a lowercase letter exactly when it was a letter, and whitespace is kept and never created |
| Text.LowerWord | classes_sem.py:30-31 | lowercasing a whitespace-free non-empty word gives one, so a lowercased token is still a token |
| Text.SplitWords | classes_sem.py:30 | every token of `str.split()` is non-empty and free of whitespace |
| Text.SplitAtSpace | classes_sem.py:30 | a whitespace character splits the string into the tokens before it followed by those after it |
| Text.SplitJoinWords | issue_1/issue_1.py:77 | splitting a `' '.join` of whitespace-free words gives the words back |
| Text.JoinWordsLength | issue_1/issue_1.py:77 | joining `n > 0` strings adds exactly `n - 1` characters |
| Text.JoinWordsAppend | issue_1/issue_1.py:77 | joining two non-empty lists is joining each and putting one space between them |
| Text.TokensAreWords | classes_sem.py:30-31 | every token is the lowercase form of a whitespace-free word |
| Text.InCorpusTokens | classes_sem.py:29-31 | a token occurs in the corpus exactly when it occurs in one of its documents |
| Tfidf.ZipWidth | classes_sem.py:115 | `zip(*m)` yields as many columns as the shortest row has entries, and none for an empty matrix |
| Tfidf.DocFreq | classes_sem.py:116-118 | a document frequency never exceeds the number of documents |
| Tfidf.DocFreqCountsRows | classes_sem.py:116-118 | `docs_with_word` is the number of rows with a positive entry in the column; it is positive exactly when some row uses the column and equals the row count exactly when all do |
| Tfidf.TfTransform | classes_sem.py:92-97 | the TF matrix keeps the shape of the count matrix; it fails with `ZeroDivisionError` exactly when some non-empty row sums to 0 |
| Tfidf.IdfTransform | classes_sem.py:112-123 | one IDF entry per `zip` column, each with the document count and the number of rows using the column |
| Tfidf.TransformerFitTransform | classes_sem.py:146-173 | the transformer's error cases in the order Python meets them, and on success one row per input row, each as wide as the first row, each cell built from that row's count and sum and the column's document frequency |
| Tfidf.VectorizerFitTransform | classes_sem.py:188-202 | the TF-IDF vectoriser refits its count vectoriser and feeds the count matrix to the transformer; an empty corpus is an `IndexError` |
| Tfidf.GetTfidfFeatureNames | classes_sem.py:72-79 | the inherited feature names are the count vectoriser's vocabulary ordered by index |
| Tfidf.UsedColumnsDocFreq | classes_sem.py:112-118 | for a rectangular matrix whose columns are all used, every document frequency lies in `[1, docs_num]` |
| Tfidf.FitTransformDocFreq | classes_sem.py:112-118 | for a count matrix from `fit_transform`, every column's document frequency lies in `[1, docs_num]` |
| Tfidf.FitTransformNoZeroRow | classes_sem.py:58-70 | if no document is empty, every count row has a positive sum and every column is used |
| Tfidf.TransformerOnUsedMatrix | classes_sem.py:146-173 | a rectangular matrix with no zero row and no unused column transforms without error, and each cell's document frequency lies in `[1, docs_num]` |
| Tfidf.VectorizerFitTransformOk | classes_sem.py:188-202 | a non-empty corpus with no empty document transforms without error into one row per document |
| Tfidf.VectorizerFitTransformTf | classes_sem.py:146-150 | cell `(d, w)` of the TF-IDF output carries the count of feature `w` in document `d` and that document's token count |
| Tfidf.VectorizerFitTransformIdf | classes_sem.py:152-162 | cell `(d, w)` of the TF-IDF output carries the corpus size and a document frequency in `[1, corpus size]` |
| Tfidf.VectorizerFitTransformEmptyDocument | classes_sem.py:146-150 | an empty document with a non-empty vocabulary makes the vectoriser fail with `ZeroDivisionError` |
| OneHot.Categories | issue_4/issue_4.py:10-14 | no argument is a `TypeError`; a first list argument is the categories; string arguments are the categories, and any later list among them is a `TypeError` |
| OneHot.BinaryPow2 | issue_4/issue_4.py:21-22 | the binary digits of `1 << k` are a 1 followed by `k` zeros |
| OneHot.BitVectorOneHot | issue_4/issue_4.py:15-22 | zero-padding `1 << k` to the width puts the single 1 at index `width - 1 - k` |
| OneHot.Encode | issue_4/issue_4.py:17-25 | the loop emits one row per category and remembers exactly the categories it has met |
| OneHot.EncodeSeen | issue_4/issue_4.py:17-24 | the `k`-th distinct category in first-seen order is remembered with the vector of `1 << k` |
| OneHot.EncodeRow | issue_4/issue_4.py:20-25 | row `i` pairs category `i` with the vector of its first-seen index, so repeats reuse the first vector |
| OneHot.EncodeExpected | issue_4/issue_4.py:13-25 | the loop's output equals the reference definition (category, one-hot vector at `width - 1 - k`) row by row |
| OneHot.FitTransform | issue_4/issue_4.py:5-27 | `fit_transform` fails with `TypeError` exactly when the arguments do, and otherwise returns the reference rows |
| OneHot.OneHotAtExactlyOne | issue_4/issue_4.py:21-22 | a one-hot vector holds only 0s and 1s, and exactly one 1 |
| OneHot.ExpectedOneHot | issue_4/issue_4.py:14-22 | every vector is as wide as the number of distinct categories and holds exactly one 1 |
| OneHot.OneHotAtInjective | issue_4/issue_4.py:21-22 | two one-hot vectors of the same width are equal exactly when the 1 is at the same place |
| OneHot.ExpectedSameVectorIffSameCategory | issue_4/issue_4.py:20-25 | two rows carry the same vector exactly when they carry the same category |
| OneHot.SingleString | issue_4/issue_4.py:30-31 | `fit_transform('Python class') == [('Python class', [1])]`: any single string is one category with the one-element vector `[1]` |
| OneHot.NoArguments | issue_4/issue_4.py:10-11 | `fit_transform()` with no arguments raises `TypeError` |
| OneHot.UnhashableLaterArgument | issue_4/issue_4.py:13-14 | a list after a first string argument is among the categories, and `set(categories)` rejects it with `TypeError` |
| OneHot.RepeatedCategoryExample | issue_4/issue_4.py:37-45 | five categories with one repeat give the four one-hot vectors of the test table, the repeat reusing its first vector |
| Morse.KeyChars | issue_1/issue_1.py:1-46 | a character is a key exactly when it is a capital Latin letter, a digit, one of `. ? / - ( )` or the space |
| Morse.TableCodes | issue_1/issue_1.py:1-46 | every code is a non-empty run of dots and dashes, except the space's, which is a space |
| Morse.KeyOfTable | issue_1/issue_1.py:1-46 | no two keys share a code: reading the table backwards recovers the key |
| Morse.Codes | issue_1/issue_1.py:73-75 | the codes list succeeds exactly when every character is a key, then holds each character's code in order; otherwise the `KeyError` names the leftmost missing character |
| Morse.Encode | issue_1/issue_1.py:73-77 | `encode` succeeds exactly when every character is a key, and fails with the error of the codes list |
| Morse.EncodeJoinsCodes | issue_1/issue_1.py:73-77 | a message of table characters encodes to its codes joined with single spaces |
| Morse.EncodeEmpty | issue_1/issue_1.py:65-66 | the empty message encodes to the empty string |
| Morse.EncodeLength | issue_1/issue_1.py:73-77 | `n > 0` table characters encode to their codes' total length plus `n - 1` |
| Morse.EncodeConcat | issue_1/issue_1.py:73-77 | two non-empty encodable messages encode together to their encodings separated by one space |
| Morse.EncodeFirstMissing | issue_1/issue_1.py:73-75 | the leftmost character that is not a key is the one the `KeyError` names, whatever follows it |
| Morse.EncodeSos | issue_1/issue_1.py:54-55 | `encode('SOS') == '... --- ...'` |
| Morse.EncodeHlwrld | issue_1/issue_1.py:57-58 | `encode('HLWRLD') == '.... .-.. .-- .-. .-.. -..'` |
| Morse.EncodeCyrillic | issue_1/issue_1.py:68-70 | `encode('ДЗ')` raises `KeyError: 'Д'` |
| Morse.EncodeLowercase | issue_1/issue_1.py:1-46 | lowercase letters are not keys: `encode('sos')` raises `KeyError: 's'` |
| Morse.DecodeDropsSpace | issue_1/issue_1.py:45 | the space encodes to a space, and reading back discards it, because the whitespace split treats it as a separator |
| Morse.EncodeKeepsSpace | issue_1/issue_1.py:45 | encoding keeps a space: `encode('A B')` is `'.-   -...'`, the space's code between the two separators |
| Morse.EncodeComma | issue_1/issue_1.py:38 | a lone comma is not a key, because the table's comma key is `', '` |
| Morse.DecodeCodes | issue_1/issue_1.py:1-46 | reading codes back succeeds exactly when every code is in the table |
| Morse.DecodeCodeList | issue_1/issue_1.py:73-75 | reading a message's codes back gives the message |
| Morse.DecodeEncode | issue_1/issue_1.py:73-77 | for messages of table characters without spaces, decoding undoes encoding |
| Departments.SetDefault | csv_parsing.py:41-42 | `if key not in d: d[key] = initial` keeps the dict well formed, adds the key at the end only when it is new, and changes nothing otherwise |
| Departments.AddSection | csv_parsing.py:38-43 | one grouping step appends the section to its department's list, creating an empty list first for a new department, and leaves the other departments alone |
| Departments.Hierarchy | csv_parsing.py:37-43 | the grouping loop succeeds exactly when every row has at least three fields, and otherwise raises `IndexError` |
| Departments.HierarchyKeys | csv_parsing.py:37-43 | the hierarchy's keys are the distinct departments in order of first appearance |
| Departments.HierarchySections | csv_parsing.py:41-43 | a department is a key exactly when some row names it, and its list holds its rows' sections in row order, duplicates kept |
| Departments.SectionsOfCount | csv_parsing.py:41-43 | a department's list has one entry per row of the department |
| Departments.HierarchyTotal | csv_parsing.py:37-43 | the lists hold as many entries in total as there are rows |
| Departments.AddSalary | csv_parsing.py:117-130 | one aggregation step folds the salary into its department's figures, starting a new department from count and total 0 and min and max at the salary, and leaves the other departments alone |
| Departments.Summary | csv_parsing.py:113-130 | the aggregation loop succeeds exactly when every row has a salary field that parses, and its result is a well-formed insertion-ordered dict |
| Departments.SummaryError | csv_parsing.py:113-130 | when the loop fails, the exception is the `IndexError` or `ValueError` of the first row that raises, every earlier row having been recorded without error |
| Departments.Record | csv_parsing.py:125-130 | one more salary adds one to the count and the salary to the total; the new minimum is the old minimum or the salary, whichever is lower, and the new maximum likewise the higher |
| Departments.RecordFirst | csv_parsing.py:117-130 | a department's first row gives count 1, min, max and total all equal to its salary |
| Departments.RecordNext | csv_parsing.py:125-130 | recording one more salary keeps count, min, max and total correct for the longer salary list |
| Departments.SummaryKeys | csv_parsing.py:113-123 | the summary's keys are the distinct departments in order of first appearance |
| Departments.SummaryStats | csv_parsing.py:113-130 | a department has figures exactly when some row names it; its count is its number of rows, its total is the sum of its salaries, and its min and max are among its salaries and bound all of them |
| Departments.SalariesOfCount | csv_parsing.py:117-125 | a department has one salary per row of the department |
| Departments.SummaryCountPositive | csv_parsing.py:85-88 | every department in the summary has a positive count, so the average that `format_department_summary` computes never divides by zero |
| StringOrder.Less | pizza.py:47 | Python's `<` on strings (code-point lexicographic, a proper prefix first) never holds between equal strings |
| StringOrder.LessTrichotomy | pizza.py:47 | Python's string order is total and asymmetric |
| StringOrder.LessTransitive | pizza.py:47 | Python's string order is transitive |
| StringOrder.Insert | pizza.py:47 | insertion adds one element and keeps the rest |
| StringOrder.Sort | pizza.py:47 | `sorted` returns a permutation of its input |
| StringOrder.SortSorted | pizza.py:47 | `sorted` returns an ascending list |
| StringOrder.SortedUnique | pizza.py:47 | two ascending lists with the same elements are equal |
| StringOrder.SortEqualIffPermutation | pizza.py:47 | `sorted(a) == sorted(b)` exactly when `a` and `b` are permutations of each other |
| Pizzas.New | pizza.py:13-31 | construction succeeds exactly for size `'L'` or `'XL'` on a subclass; a bad size raises `ValueError` first, the base class then raises `AttributeError`, and a pizza carries its class's name, size, recipe and image |
| Pizzas.Eq | pizza.py:33-49 | `__eq__` returns `NotImplemented` exactly for a non-pizza, and for a pizza it returns whether name, size and recipe as a multiset agree |
| Pizzas.Equals | pizza.py:43-49 | `==` is never true against a non-pizza; two pizzas are equal exactly when names and sizes agree and recipes are permutations of each other |
| Pizzas.EqualsEquivalence | pizza.py:45-49 | pizza equality is reflexive, symmetric and transitive |
| Pizzas.ClassNameInjective | pizza.py:28 | distinct classes have distinct names |
| Pizzas.NewEquals | pizza.py:45-49 | constructed pizzas are equal exactly when they have the same class and the same size |
| Pizzas.GetReceipt | pizza.py:51-58 | `get_receipt` is a one-entry dict from the pizza's name to its recipe |
| Pizzas.GetReceiptEquals | pizza.py:51-58 | equal pizzas give receipts with the same key and recipes that are permutations of each other |
| Pizzas.OversizeRejected | pizza.py:26-27 | `Pepperoni('XXL')` raises `ValueError` |
| Pizzas.DifferentPizzas | pizza.py:45-49 | `Margherita() != Pepperoni()`, `Pepperoni() == Pepperoni()`, `Pepperoni('L') != Pepperoni('XL')` |
| Pizzas.Recipes | pizza.py:65-81 | the three subclass recipes, in order |
| Pizzas.BaseRejected | pizza.py:10-30 | the base class cannot be instantiated with any size |

## Left out

- **Floating point.** Floating-point values are not modelled:
  - the term frequency `rep / sum(...)`;
  - the IDF `math.log(...) + 1`;
  - `round(..., 3)`;
  - the TF-IDF product.
  
  Each TF-IDF cell is the record of the integers that the formula is applied to. Shapes, document frequencies and error cases are exact.
- **Salaries.** `float(row[5])` is a `parse` parameter that returns a whole number or nothing (nothing means `ValueError`). Float rounding in the min, max and total is not modelled.
- **Unicode.** `str.lower()` lowercases only `A`-`Z`. Python also lowercases other scripts and can change a string's length (`'İ'.lower()` has two characters). `str.split()` is modelled with Python's whitespace set, written out by code point.
- **File I/O and output.** `read_csv_file` (opening the file, `csv.reader`, skipping the header row) is not modelled: the rows are given. Also left out are `save_department_summary_to_csv`, the string formatting in `format_department_summary` and the printing functions.
- **Interactive code and demos.** The `__main__` blocks, the interactive menu of `csv_parsing.py`, `cli.py` (a click command line), `menu.py` (static data) and `omd.py` (an `input()` story).
- **Shared lists.** Returned lists are modelled as values, so aliasing is not modelled. Three places share one mutable list: `get_feature_names` returns the vectoriser's own `feature_names_` (`classes_sem.py`:79, `count_vectorizer.py`:35); every pizza's `receipt` is the class-level list that `get_receipt` returns (`pizza.py`:30, 58); and the rows of a repeated one-hot category share one vector list (`issue_4/issue_4.py`:24-25). A caller that mutates such a list changes the other holders, and the model does not capture that.
- **Pizza side effects.** The `log` decorator and `bake`, `delivery_func` and `pickup` consist of `time.sleep`, `random` and printing.
- Morse.Encode: `encode(-1)` raises `TypeError` for a non-iterable argument, which cannot occur because the argument's type is a string.
- Morse.Table: `LETTER_TO_MORSE` is modelled as its lookup function (`dict.get`), not as a dictionary value.
- OneHot.Categories: A first argument that is some other iterable is modelled as the list of its items. A non-iterable first argument (a `TypeError` from `list(...)`) is not modelled.
- Pizzas.Equals: The model relies on the fallback to identity. It returns false against a non-pizza because a pizza is never identical to a non-pizza. A user-defined class whose own `__eq__` claims equality with a pizza is not modelled.
