# Zhihu question crawler — a Dafny model of its bookkeeping

The crawler takes a Zhihu question id, reads the answer count from the
question page, pages through the answers API in windows of at most 20 answers,
saves the answers as JSON, and then downloads the pictures embedded in each
answer into a directory per answer. All of it lives in `main.py`.

This project models the logic around the network and disk calls:

- `Pagination` (pagination.dfy): the effective target `max_num`, the
  `get_json` loop over `offset`/`limit` with its mutable `params` dict, the
  `exit(-1)` branch, and the answers gathered by `get_ans_data`. The loop is a
  method proved against a reference definition of the windows, of the
  parameters each request carries, and of the answers gathered. The HTTP
  request is a parameter `fetch: Params -> Option<seq<Answer>>`: `Some` is a
  status-200 response's `data` array, `None` is another status or an exception.
  A server that honours `offset` and `limit` (`Serve`) is used to state what
  the run gathers.
- `Text` (text.dfy): `str.split`/`join` for one separator, the image file
  name `url.split('/')[-1].split('?')[0]`, and the cleaning of include.txt
  (`re.sub(r' *#.*', '', text)` then `''.join(text.split('\n'))`), proved
  equal to a line-by-line reference definition.
- `Dedup` (dedup.dfy): `list_del_overlap`.
- `Metadata` (metadata.dfy): the answer-count regex and `int(...)` of its
  digits.
- `Images` (images.dfy): the `data-original` findall scan, and the loop of
  `get_images` that skips answers without pictures and names each download.
- `Question` (question.dfy): the order of `__init__`: no answer count is fatal,
  otherwise the answers are collected.

Points where the code behaves otherwise than a reader might expect; the model
follows the code:

- The answers are not fetched concurrently. In
  `executor.submit(self.get_ans_data(...), ...)` the call to `get_ans_data`
  is evaluated before `submit`, so the requests run one by one in window
  order; the pool of four workers only receives `None`. The same holds for
  picture downloads (main.py:224). The model is sequential.
- A request does not carry its own window's limit. `params['limit']` is
  updated after the call, so each request carries the previous window's limit
  (see Findings).
- A ceiling below -1 is not rejected up front. It gives a negative `max_num`,
  and the first iteration takes the `exit(-1)` branch. The model returns
  `Fatal`.
- A picture's file name is not simply the last path segment with the query
  string removed. `url.split('/')[-1]` runs before `.split('?')[0]`
  (main.py:219), so a `/` inside the query string moves the cut:
  `https://h/d/a.jpg?u=x/y` is saved as `y`. The model computes the name
  the same way.
- A page without an answer count does not abort only its question: the code
  exits the process. The model returns `Fatal`.

## Model

| member | source | states |
|---|---|---|
| Pagination.MaxNum | main.py:135-138 | the target is the answer count when the ceiling is -1, else the smaller of ceiling and count; it is negative exactly when the ceiling is below -1 |
| Pagination.Windows | main.py:145-161 | ceil(m/20) windows, none larger than a page (shape: see WindowsShape) |
| Pagination.LaggedRequests | main.py:157-161 | one request per window (offsets and limits: see LaggedRequestsFullPages) |
| Pagination.Aggregate | main.py:171-184 | when every request fails nothing is gathered (bounds and order: see AggregateWithinLimits, ContiguousCollect) |
| Pagination.WindowsShape | main.py:145-150 | the windows tile [0, m) from offset 0 with no gap, overlap or empty window; there are ceil(m/20) of them, none when m is 0; all hold 20 but the last, which holds m mod 20 when that is not 0 |
| Pagination.WindowsExample | main.py:145-161 | a target of 45 gives (0,20), (20,20), (40,5) |
| Pagination.GetAnsData | main.py:171-184 | a status-200 response extends the data with its answers in order; a failed request leaves the data unchanged |
| Pagination.CollectAnswers | main.py:135-163 | the loop ends in `exit(-1)` exactly when the target is negative; otherwise it walks exactly the reference windows, sends with each the lagging parameters, and gathers the responses' answers in window order, failed windows adding nothing and not stopping the loop |
| Pagination.LaggedRequestsFullPages | main.py:157-161 | as written, request i carries offset 20*i and limit 20: the offset is the window's, the limit the previous window's |
| Pagination.ContiguousCollect | main.py:171-184 | requests that follow each other from offset 0 bring back from an honouring server the answers up to where the last stops, in order, each once |
| Pagination.CollectsAllAnswers | main.py:135-163 | with no ceiling and every request answered, the run gathers exactly the question's answers in order |
| Pagination.LaggedCollectsRoundedUp | main.py:157-161 | as written, with a ceiling m, the run gathers the answers up to the smallest multiple of 20 not below m, capped at the answer count, not up to m |
| Pagination.LaggedLimitOverfetches | main.py:157-161 | a ceiling of 45 on a question of 100 answers gathers 60 answers |
| Pagination.ExactRequests | main.py:157-161 | the intended parameters: each request carries its own window's offset and limit |
| Pagination.ExactRequestsCollectTarget | main.py:157-161 | with the intended parameters, an honouring server yields exactly the first m answers (all when fewer) |
| Pagination.AggregateWithinLimits | main.py:171-184 | from a server that never sends more than asked, the run gathers at most the sum of the limits requested |
| Pagination.ExactRequestsWithinTarget | main.py:135-161 | with the intended parameters, no honouring server, failing or not, makes the run exceed the target |
| Text.Split | main.py:117 | the pieces hold no separator, there is at least one, and joining them gives the input back |
| Text.SplitJoin | main.py:117 | splitting a join of separator-free pieces gives the pieces back |
| Text.ConcatSplit | main.py:117 | `''.join(s.split(c))` deletes every `c` and keeps the rest in order |
| Text.ImageName | main.py:219 | the file name holds neither `/` nor `?` |
| Text.ImageNameSpec | main.py:219 | the name starts right after the URL's last `/` and stops at the first `?` after it or at the end |
| Text.ImageNameOfParts | main.py:219 | a URL made of a directory ending in `/`, a name free of `/` and `?`, and a query string without `/` or nothing, is saved under that name |
| Text.ImageNameExample | main.py:219 | `https://pic.example.com/v2/abc123.jpg?source=xyz` gives `abc123.jpg` |
| Text.FromNewline | main.py:114 | `.*` without DOTALL stops before the first newline: what remains is the text from that newline on |
| Text.SubComments | main.py:114-116 | the result holds no `#` and is no longer than the input (line by line: see SubCommentsLine, IncludeParamByLines) |
| Text.IncludeParam | main.py:114-117 | the parameter holds no `#` and no newline (its content: see IncludeParamByLines) |
| Text.SubCommentsLine | main.py:114-116 | deleting comments from a line followed by more lines strips that line on its own and keeps its newline |
| Text.IncludeParamByLines | main.py:114-117 | the include parameter is each line cut at its first `#` together with the spaces right before it, lines concatenated |
| Text.IncludeParamClean | main.py:114-117 | text without `#` only loses its newlines |
| Dedup.ListDelOverlap | main.py:27-29 | no element occurs twice, the elements are exactly the input's, and it is no longer than the input |
| Dedup.ListDelOverlapOfDistinct | main.py:27-29 | a list without repeats comes back as a permutation of itself, whatever order the set gives |
| Dedup.SameElementsPermutation | main.py:27-29 | two repeat-free lists with the same elements are permutations of each other, so any order `list(set(...))` picks gives the same multiset |
| Dedup.ListDelOverlapSize | main.py:27-29 | the result has one entry per distinct element of the input |
| Dedup.ListDelOverlapRepeated | main.py:208 | a URL found twice is kept once |
| Metadata.DigitRun | main.py:73 | `\d+` takes the whole run of digits: every character before the returned length is a digit, the next one is not |
| Metadata.MatchCountAt | main.py:73-79 | a match starts with the meta-tag prefix followed by at least one digit (exactly what matches and what it reads: see MatchCountAtSpec) |
| Metadata.MatchCountAtSpec | main.py:73-79 | a match at the start of the text exists exactly when the prefix, a non-empty digit string d and `"/>` follow each other there, and its value is `int(d)` for any such d, leading zeros included |
| Metadata.MatchOfDigits | main.py:73-79 | the prefix, any non-empty digit string d and `"/>` at the start of the text match with the value `int(d)` |
| Metadata.MissingSlashNoMatch | main.py:73 | digits closed by `">` instead of `"/>` are no match |
| Metadata.FindAnswerCount | main.py:73-79 | the leftmost match's count, none when no position matches (see FindAnswerCountSpec) |
| Metadata.FindAnswerCountSpec | main.py:73-79 | the count comes from the leftmost match of the meta-tag pattern, and there is none exactly when no position of the page starts a match |
| Metadata.DecimalRoundTrip | main.py:79 | `int` of the decimal digits of n is n |
| Metadata.CountTagRoundTrip | main.py:73-79 | a page whose first answer-count tag carries n yields n |
| Images.Find | main.py:203 | the position found is an occurrence with none before it from the start point; none found means no occurrence |
| Images.NextImage | main.py:203 | a match captures text without a quote, and the scan resumes after it, so it always moves on (what is captured: see NextImageSpec) |
| Images.NextImageSpec | main.py:203 | with the first `<img src=` at p, the first `data-original="` from p+9 at q and the first quote from q+15 at e, the match captures s[q+15..e], a quote sits at e, and the scan resumes at e+1; a match is found only when such p, q, e exist |
| Images.NextImageOfMatch | main.py:203 | the match made of the first `<img src=`, the first `data-original="` after it and the first quote after that is the one the scan returns |
| Images.NextImageNone | main.py:203 | when the search from the start finds nothing, no `<img src=` anywhere is followed by a `data-original="` followed by a quote, so findall has no further match |
| Images.ChainFound | main.py:203 | any `<img src=` followed by `data-original="` followed by a quote makes the search succeed |
| Images.FirstUpTo | main.py:203 | an occurrence at i means a first occurrence at or after the start point, no later than i |
| Images.FindSpec | main.py:203 | the position found is the first occurrence at or after the start point, and nothing is found exactly when there is none |
| Images.ScanImages | main.py:203 | no captured URL holds a quote |
| Images.ScanTag | main.py:203 | a tag `<img src=`, other attributes without `data-original="` in them, `data-original="u"`, in front of more text, is scanned as u, then the scan goes on after its closing quote |
| Images.MatchOfParts | main.py:203 | `<img src=`, attributes, `data-original="`, a quote-free stretch and a quote at the start of a text form the match the scan makes there |
| Images.ScanRender | main.py:203 | the scan reads back, in order and with repeats, the URLs written as tags, whatever other attributes precede `data-original="` |
| Images.JobFor | main.py:208-220 | an answer's downloads are its distinct scanned URLs, each named by the image-name rule, under the answer's id |
| Images.ImageJobs | main.py:202-220 | at most one job per answer, each with at least one download (which answers: see ImageJobsCoverAnswers) |
| Images.ImageJobsCoverAnswers | main.py:202-215 | a job (directory and downloads) is made for every answer with pictures and only for those |
| Images.GetImages | main.py:202-228 | the loop produces the jobs of the answers with pictures in answer order, and counts them |
| Images.RepeatedPictureDownloadedOnce | main.py:203-208 | an answer carrying the same picture twice downloads it once |
| Images.NoMarkupNoJob | main.py:203-206 | an answer without `<img src=` gets no job |
| Question.ProcessQuestion | main.py:70-90 | a page without an answer count ends in `exit(-1)`; otherwise the outcome is that of the answer collection for the count found |

## Findings

| source | as written | input that shows it | evidently intended | confidence | as-written member | corrected member |
|---|---|---|---|---|---|---|
| main.py:157-161 | `params['limit']` is set after the request, so each request carries the previous window's limit; the last, short window still asks for 20 answers | `ans_num_limit=45` on a question with 100 answers: the third request is offset 40, limit 20, and 60 answers are saved | each request carries its own window's limit, so at most `max_num` answers are saved | medium, not executed | Pagination.LaggedLimitOverfetches | Pagination.ExactRequestsCollectTarget |

With no ceiling (the way `__main__` calls it) the lag is harmless:
`Pagination.CollectsAllAnswers` shows the run then gathers exactly the
question's answers. `Pagination.CollectAnswers` and
`Question.ProcessQuestion` keep the code as written, since that is what the
program does. The intended parameters are `Pagination.ExactRequests`. With them,
`Pagination.ExactRequestsWithinTarget` bounds any honouring server by the target.

## Left out

- HTTP (`requests.get`), response JSON decoding and the page fetch of `get_html` (main.py:94-109): foreign I/O. A request is the parameter `fetch`, and the page is the string given to `ProcessQuestion`.
- File system work: the skip-if-exists checks (main.py:100, 129, 236), `makedirs`, reading and writing files, `json.dumps`, and `get_data` (main.py:234-247). This is I/O. A download job stands for the directory made and the files fetched into it. `get_data` is never given `overwrite` (main.py:224), so an existing picture is never fetched again. Two distinct URLs of one answer that share a file name map to the same path; since the downloads run one at a time and without `overwrite`, the first of them in set order that downloads is saved and the later ones are skipped as existing (main.py:236). The model keeps both downloads in the job and does not model which one ends up on disk.
- `ThreadPoolExecutor`, `submit` and `wait`: every call runs synchronously before `submit`, and the futures only hold the error of calling `None`. There is no concurrency to model.
- `logging`, `time.sleep(0.5)` and the `__main__` driver (main.py:251-262). `exit(-1)` is the outcome `Fatal`, not process termination.
- The title regex (main.py:82-88): its result is only logged and stored.
- The `ZhihuQuestion` object: its fields are set once in `__init__`, so the model passes `ans_num_limit` and `ans_count` as parameters, not as a class.
- Answer records are reduced to `id` and `content`, the only fields the code reads.
- Dedup.ListDelOverlap: Python's `list(set(lst))` order is unspecified. The model keeps one fixed order, and its contract promises only no repeats and the same elements.
- Metadata.DigitRun: Python's `\d` on `str` also matches non-ASCII decimal digits, which `int` accepts. The model only reads ASCII `0`-`9`.
