# Batch splitting and bundling scripts, modelled in Dafny

The repository holds three independent Python scripts. Each enumerates items, splits them into groups, and writes one output file per group:

- `merge_pdf/merge_into_n_pdfs.py` splits the sorted PDFs of a folder into at most N contiguous groups of balanced, front-loaded size (`chunkify`). It plans one `merged_NN.pdf` per group.
- `download_github_issues.py` derives an output folder name (the slug) from a product label. It then cuts the issue list into slices of `ceil(n / FILES_WANTED)` issues, one `issues_NN.md` per slice, and normalises the state, assignee and body fields of each issue.
- `merge_markdown.py` walks every top-level Google Drive folder depth first and collects the `.md` files below it (`recurse_md_files`). It downloads each file with a bounded retry and exponential back-off (`safe_download_md`) and writes one bundle per folder (`merge_folder`, `main`).
  - `merge_markdown_from_google_drive/merge_markdown.py` is the same file, byte for byte, so it is modelled once. Some rows below cite the copy.

Modules:

- `Common`: Option/Result, flattening, sums.
- `Format`: decimal rendering, `{:02d}`, ASCII `lower()`.
- `PdfMerge`.
- `GithubIssues`.
- `MdRetry`: `safe_download_md`.
- `MdTraversal`: `recurse_md_files`.
- `MdMerge`: `merge_folder` and `main`.

Where the loops of the source build their result step by step, the model is a method with loop invariants. Each such method is proved equal to a specification function, and the properties are proved about that function.

The external services become oracles:

- The Drive listing is a tree of `DriveItem`s.
- Each download attempt is a function from (file id, attempt number) to an outcome.
- The GitHub search result is a list of issues.
- The output directory is a map from file name to content.

Behaviour worth knowing:

- **`merge_into_n_pdfs.py` writes min(N, count) files.** Its docstring promises "exactly N larger PDFs" (`merge_pdf/merge_into_n_pdfs.py:3`). `chunkify` caps the count at the number of PDFs, so 2 PDFs asked into 5 give two files of one PDF each. A non-positive N raises ValueError.
- **`download_github_issues.py` cuts fixed-size slices.** It takes per_file = ceil(n / FILES_WANTED) and slices with `range(0, n, per_file)`: every file holds per_file issues except the last. The sizes match `chunkify`'s balanced ones only when n < FILES_WANTED, or when n mod FILES_WANTED is 0 or FILES_WANTED − 1 (`GithubIssues.PoliciesAgreeIff`). With FILES_WANTED = 3, 10 issues give [4, 4, 2], and 4 issues give only 2 files.
- **`safe_download_md` waits after every transient failure, the third included.** The wait after attempt k is 2^k (2, 4, 8). After the third transient failure it waits 8 and then returns `None`, and `merge_folder` skips that file.
- **A failure that is not retried ends the whole run.** That is an HTTP error with a non-transient status on any attempt, or any other Exception on the third attempt. It is re-raised, and nothing in `merge_folder` or `main` catches it. The bundle being written keeps what was written before it, and later folders are not processed.
- **The separator comes before every article, including the first.** `SEPARATOR` is commented as a "visual break between articles" (`merge_markdown.py:18`). It is written ahead of each downloaded file, so every non-empty bundle starts with it.
- **A folder whose downloads all returned `None` gets an empty file.** A folder with no `.md` file below it writes nothing, so an older bundle of that name stays as it was.

## Model

| member | source | states |
|---|---|---|
| Format.DecimalRoundTrip | merge_pdf/merge_into_n_pdfs.py:62 | the decimal rendering of a number parses back to that number |
| Format.LeadingZeroIgnored | merge_pdf/merge_into_n_pdfs.py:62 | a leading zero does not change the value a digit string denotes |
| Format.ZeroPad2Properties | merge_pdf/merge_into_n_pdfs.py:62 | `{:02d}` gives only digits, at least two of them and exactly two below 100, and they denote the number |
| Format.ZeroPad2Injective | download_github_issues.py:47 | different numbers give different `{:02d}` strings |
| Format.LowerChar | download_github_issues.py:14 | `lower()` on one character: an ASCII capital becomes its own small letter (code point + 32), anything else is unchanged |
| Format.Lower | merge_markdown.py:60 | `lower()` keeps the length and leaves no ASCII capital |
| Format.LowerIdempotent | merge_markdown.py:60 | lower-casing twice is the same as lower-casing once |
| Format.ZeroPad2 | merge_pdf/merge_into_n_pdfs.py:62 | definition of `{:02d}`; properties in Format.ZeroPad2Properties and Format.ZeroPad2Injective |
| PdfMerge.ChunkSizes | merge_pdf/merge_into_n_pdfs.py:30-37 | k chunk sizes, any two differing by at most one, non-increasing, none zero when k ≤ the number of items |
| PdfMerge.PrefixSum | merge_pdf/merge_into_n_pdfs.py:34-39 | chunk i starts at i·base_size + min(i, remainder) |
| PdfMerge.ChunkSizesSum | merge_pdf/merge_into_n_pdfs.py:31-39 | the chunk sizes add up to the number of items |
| PdfMerge.SumTwoValued | merge_pdf/merge_into_n_pdfs.py:31-32 | sizes that are each m or m + 1 sum to len·m plus the number of larger ones |
| PdfMerge.CountAbovePrefix | merge_pdf/merge_into_n_pdfs.py:36 | in a non-increasing two-valued list, the larger values are exactly a prefix |
| PdfMerge.ChunkSizesUnique | merge_pdf/merge_into_n_pdfs.py:22-25 | any non-increasing list of k sizes that sums to the total and whose sizes differ by at most one is exactly the list `chunkify` produces |
| PdfMerge.ChunkEnd | merge_pdf/merge_into_n_pdfs.py:36-39 | `end = start + base_size + extra` is the next chunk's start, within the list, and the last end is the list's length |
| PdfMerge.Chunkify | merge_pdf/merge_into_n_pdfs.py:21-40 | ValueError exactly when n_chunks ≤ 0; ZeroDivisionError exactly when n_chunks > 0 and the list is empty; otherwise min(n_chunks, len) chunks with the balanced front-loaded sizes, which joined give back the list |
| PdfMerge.ChunkStep | merge_pdf/merge_into_n_pdfs.py:35-39 | one loop pass keeps the chunks so far sized by `base_size + extra` and joined equal to `items[:start]`, with `end` inside the list |
| PdfMerge.NextStart | merge_pdf/merge_into_n_pdfs.py:36-37 | the next start is the previous start plus chunk i's size, and never past the list |
| PdfMerge.ChunkedAll | merge_pdf/merge_into_n_pdfs.py:40 | after the last pass the chunk lengths are the balanced sizes and the chunks joined are the whole list |
| PdfMerge.ChunkSizesExamples | merge_pdf/merge_into_n_pdfs.py:25 | 15 items into 4 chunks gives [4, 4, 4, 3]; 10 into 3 gives [4, 3, 3]; 2 items asked into 5 give [1, 1] |
| PdfMerge.MergedNamesDistinct | merge_pdf/merge_into_n_pdfs.py:62 | different group numbers give different `merged_NN.pdf` names |
| PdfMerge.MergedName | merge_pdf/merge_into_n_pdfs.py:62 | definition of `merged_{idx:02d}.pdf`; properties in PdfMerge.MergedNamesDistinct |
| PdfMerge.NameJobs | merge_pdf/merge_into_n_pdfs.py:61-64 | one job per chunk, in order, holding that chunk and named `merged_{i:02d}.pdf` with i counted from 1 |
| PdfMerge.PlanPdfMerge | merge_pdf/merge_into_n_pdfs.py:53-64 | no PDFs ends the run; otherwise a non-positive N fails with ValueError; otherwise min(N, count) merges whose groups have the balanced sizes and join to the sorted PDF list |
| GithubIssues.AlnumsConcat | download_github_issues.py:14 | the letters and digits of a concatenation are those of each part, in order |
| GithubIssues.AlnumsNone | download_github_issues.py:14 | a text without letters or digits has none to keep |
| GithubIssues.LastField | download_github_issues.py:14 | `split(":")[-1]` is a colon-free suffix, preceded by a colon unless it is the whole text |
| GithubIssues.SkipRun | download_github_issues.py:14 | the greedy `+` of the pattern takes the whole leading run of other characters, up to the next letter or digit |
| GithubIssues.Collapse | download_github_issues.py:14 | definition of `re.sub(r"[^A-Za-z0-9]+", "_", s)`; properties in GithubIssues.CollapseProperties, CollapseRun and CollapseKeepsAlnums |
| GithubIssues.SkipFrom | download_github_issues.py:14 | the position of the first letter or digit at or after k, with none before it |
| GithubIssues.SkipRunAlnums | download_github_issues.py:14 | skipping a run loses no letter or digit |
| GithubIssues.CollapseProperties | download_github_issues.py:14 | `re.sub(r"[^A-Za-z0-9]+", "_", s)` leaves only letters, digits and single underscores, starts with `_` exactly when s starts with another character, and keeps the letters and digits of s in order |
| GithubIssues.CollapseKeepsAlnums | download_github_issues.py:14 | a prefix of letters and digits passes through the substitution unchanged |
| GithubIssues.CollapseCons | download_github_issues.py:14 | a leading letter or digit is kept in front of the substituted rest |
| GithubIssues.SkipRunOver | download_github_issues.py:14 | a run of other characters is skipped up to the next letter or digit |
| GithubIssues.CollapseRun | download_github_issues.py:14 | a whole run of other characters becomes one underscore |
| GithubIssues.CollapseTwoWords | download_github_issues.py:14 | two words around a space become the two words around an underscore |
| GithubIssues.StripLeading | download_github_issues.py:14 | `lstrip("_")` removes exactly the leading underscores |
| GithubIssues.StripTrailing | download_github_issues.py:14 | `rstrip("_")` removes exactly the trailing underscores |
| GithubIssues.StripIsMiddle | download_github_issues.py:14 | `strip("_")` is a middle slice, with only underscores cut on either side |
| GithubIssues.Strip | download_github_issues.py:14 | definition of `strip("_")`; properties in GithubIssues.StripIsMiddle |
| GithubIssues.Slug | download_github_issues.py:14 | definition of the slug; properties in GithubIssues.SlugProperties and SlugOfProductLabel |
| GithubIssues.OutputDir | download_github_issues.py:15 | definition of `f"{slug}_github_issues"`; properties in GithubIssues.OutputDirSafe |
| GithubIssues.OutputDirSafe | download_github_issues.py:14-15 | the output folder is the slug followed by `_github_issues`, and holds only `[a-z0-9_]` |
| GithubIssues.LowerAlnums | download_github_issues.py:14 | lower-casing and then keeping the letters and digits gives the same as the reverse order |
| GithubIssues.MiddleAlnums | download_github_issues.py:14 | cutting underscores off both ends loses no letter or digit |
| GithubIssues.DropTrailing | download_github_issues.py:14 | cutting trailing underscores loses no letter or digit |
| GithubIssues.DropLeading | download_github_issues.py:14 | cutting leading underscores loses no letter or digit |
| GithubIssues.AlnumsSplit | download_github_issues.py:14 | the letters and digits of a text are those of its two halves |
| GithubIssues.UnderscoresOnly | download_github_issues.py:14 | a stretch of underscores has no letter or digit |
| GithubIssues.LowerSlugChars | download_github_issues.py:14 | lower-casing letters, digits and underscores gives slug characters, with underscores in the same places |
| GithubIssues.MiddleNoDouble | download_github_issues.py:14 | a slice of a text without `__` has none either |
| GithubIssues.SlugProperties | download_github_issues.py:13-15 | the slug has only `[a-z0-9_]`, no underscore at either end, no `__`, and its letters and digits are those of the label's last field, lower-cased |
| GithubIssues.SlugOfProductLabel | download_github_issues.py:9-15 | `Product:Aurea ACRM` gives the slug `aurea_acrm` |
| GithubIssues.SlugIsOfLastField | download_github_issues.py:14 | the slug of the label is that of its last field |
| GithubIssues.SlugOfField | download_github_issues.py:14 | `Aurea ACRM` substituted, stripped and lowered is `aurea_acrm` |
| GithubIssues.StripAndLowerOfField | download_github_issues.py:14 | stripping and lowering `Aurea_ACRM` gives `aurea_acrm` |
| GithubIssues.StripOfField | download_github_issues.py:14 | `Aurea_ACRM` has no underscore to strip at either end |
| GithubIssues.LowerOfField | download_github_issues.py:14 | `Aurea_ACRM` lowered is `aurea_acrm` |
| GithubIssues.LastFieldAfterColon | download_github_issues.py:14 | the last field is whatever follows the last colon |
| GithubIssues.LastFieldOfProductLabel | download_github_issues.py:9-14 | the last field of `Product:Aurea ACRM` is `Aurea ACRM` |
| GithubIssues.CollapseOfField | download_github_issues.py:14 | `Aurea ACRM` becomes `Aurea_ACRM` |
| GithubIssues.StrideChunksSizes | download_github_issues.py:44-45 | the slices `issues[i : i + per_file]` have the stride sizes |
| GithubIssues.PerFile | download_github_issues.py:41 | definition of `math.ceil(len(issues) / FILES_WANTED)`; properties in GithubIssues.PerFileAtLeastOne and StrideCountAtMostWanted |
| GithubIssues.StrideChunks | download_github_issues.py:44-45 | definition of the slices `issues[i : i + per_file]`; properties in GithubIssues.StrideChunksFlatten, StrideChunksSizes and StrideChunkIsSlice |
| GithubIssues.StrideChunksFlatten | download_github_issues.py:44-45 | the slices joined are the whole issue list, in order |
| GithubIssues.StrideSizesShape | download_github_issues.py:41-45 | ceil(n / per_file) slices, all of per_file issues except the last, which holds 1 to per_file |
| GithubIssues.StrideSizesCount | download_github_issues.py:44 | `range(0, n, per_file)` has ceil(n / per_file) steps |
| GithubIssues.StrideSizesFull | download_github_issues.py:45 | every slice but the last is full, and the last is not empty |
| GithubIssues.StrideSizesOf | download_github_issues.py:44-45 | m·per_file + last issues give m full slices and then one of `last` issues |
| GithubIssues.PerFileAtLeastOne | download_github_issues.py:41 | for a non-empty list, per_file is at least 1 and FILES_WANTED·per_file covers every issue |
| GithubIssues.DivAtMost | download_github_issues.py:41-44 | a count below p·(f + 1) divided by p is at most f |
| GithubIssues.StrideCountAtMostWanted | download_github_issues.py:41-44 | never more than FILES_WANTED files |
| GithubIssues.PoliciesAgreeIff | download_github_issues.py:41-45 | the stride sizes equal `chunkify`'s balanced sizes exactly when n < FILES_WANTED, or n mod FILES_WANTED is 0 or FILES_WANTED − 1 |
| GithubIssues.AgreeWhenFewIssues | download_github_issues.py:41-45 | fewer issues than files: one issue per file under both policies |
| GithubIssues.AgreeWhenDivisible | download_github_issues.py:41-45 | an exact multiple: equal slices under both policies |
| GithubIssues.DivisibleSplit | download_github_issues.py:41 | for an exact multiple, per_file is n / FILES_WANTED |
| GithubIssues.AgreeWhenOneShort | download_github_issues.py:41-45 | one issue short of a multiple: both policies give one short last slice |
| GithubIssues.DisagreeOtherwise | download_github_issues.py:41-45 | any other remainder: the stride sizes differ from the balanced ones |
| GithubIssues.PolicyExamples | download_github_issues.py:41-45 | 10 issues give per_file 4 and slices [4, 4, 2] (balanced would be [4, 3, 3]); 4 issues give two files of 2 |
| GithubIssues.Groups | download_github_issues.py:45-50 | definition: the issues of each written file, in file order; what they hold is stated by GithubIssues.WriteIssueFiles |
| GithubIssues.IssuesName | download_github_issues.py:47 | definition of `issues_{idx:02d}.md`; properties in GithubIssues.IssuesNamesDistinct |
| GithubIssues.IssuesNamesDistinct | download_github_issues.py:47 | different file numbers give different file names |
| GithubIssues.StartIsProduct | download_github_issues.py:44 | the k-th start of the range is k·per_file |
| GithubIssues.StrideIndex | download_github_issues.py:46 | `i // per_file` at the k-th start is k, and the next start is per_file further |
| GithubIssues.SliceShift | download_github_issues.py:45 | dropping the first per_file issues shifts every later slice back by one |
| GithubIssues.StrideChunksCount | download_github_issues.py:44 | the number of slices is the number of starts below n |
| GithubIssues.StrideChunkIsSlice | download_github_issues.py:45 | slice j is `issues[j·per_file : (j+1)·per_file]` cut at the end |
| GithubIssues.LastSlice | download_github_issues.py:45 | at most per_file issues make one slice holding them all |
| GithubIssues.WriteStep | download_github_issues.py:44-47 | the file written at start i is number `i // per_file + 1` and holds the next slice |
| GithubIssues.WrittenExtend | download_github_issues.py:45-49 | adding the next slice as the next file keeps every file j holding slice j and named `issues_{j+1:02d}.md` |
| GithubIssues.WrittenAll | download_github_issues.py:44 | once the range is exhausted, the files hold exactly the slices |
| GithubIssues.WriteSlices | download_github_issues.py:44-49 | file j is named `issues_{j+1:02d}.md` and holds slice j; the files' issues are exactly the slices |
| GithubIssues.WriteIssueFiles | download_github_issues.py:36-47 | no issues ends the run ("Nothing found"); otherwise per_file = ceil(n / FILES_WANTED) and the files hold the stride slices, numbered from 1 |
| GithubIssues.IssueFilesCover | download_github_issues.py:41-47 | every issue is written once, in order, into 1 to FILES_WANTED files, all full but the last |
| GithubIssues.RenderState | download_github_issues.py:53 | `closed` exactly when the state is `closed`, `open` for every other state |
| GithubIssues.Join | download_github_issues.py:51 | definition of `sep.join(xs)`; properties in GithubIssues.JoinEmptyIff |
| GithubIssues.AssigneesText | download_github_issues.py:51 | definition of `", ".join(logins) or "–"`; properties in GithubIssues.AssigneesPlaceholder |
| GithubIssues.JoinEmptyIff | download_github_issues.py:51 | `", ".join(xs)` is empty exactly when xs is empty or one empty string |
| GithubIssues.AssigneesPlaceholder | download_github_issues.py:51 | no assignees renders the dash; non-empty logins render joined by `, ` |
| GithubIssues.BodyText | download_github_issues.py:60 | a missing or empty body becomes `*No description*`, any other body is kept; the result is never empty |
| MdRetry.SafeDownloadMd | merge_markdown.py:64-81 | the result, the waits chosen and the number of attempts are those of the retry policy run from attempt 1 |
| MdRetry.Retried | merge_markdown.py:69-80 | definition of the failures after which the loop waits and tries again; used by MdRetry.NoTextIff, ReturnedIff and RaisedAt |
| MdRetry.RunFrom | merge_markdown.py:66-81 | definition of the retry policy from a given attempt; properties in MdRetry.TraceCounts, TraceWaits, NoTextIff, ReturnedIff and RaisedAt |
| MdRetry.PrependStop | merge_markdown.py:66-80 | a success or a failure that is not retried ends the loop after that attempt |
| MdRetry.PrependRetried | merge_markdown.py:69-79 | a retried failure adds one wait of 2^attempt and one attempt, then continues |
| MdRetry.TraceCounts | merge_markdown.py:66-81 | at least one and at most MAX_RETRIES attempts; one wait per attempt except the last, plus a final wait exactly when the result is None |
| MdRetry.TraceWaits | merge_markdown.py:70-79 | the k-th wait is 2^attempt for the attempt it follows |
| MdRetry.NoTextIff | merge_markdown.py:66-81 | None is returned exactly when every attempt fails in a retried way: a transient status on any attempt, and on the last attempt nothing else |
| MdRetry.ReturnedIff | merge_markdown.py:66-68 | the text of attempt b is returned after b attempts exactly when attempt b succeeds and every earlier one was retried |
| MdRetry.RaisedAt | merge_markdown.py:69-80 | the first failure that is not retried is re-raised at once |
| MdRetry.AlwaysUnavailable | merge_markdown.py:64-81 | a file that always answers 503 is tried 3 times, with waits of 2, 4 and 8, and gives None |
| MdRetry.NotFoundRaisesAtOnce | merge_markdown_from_google_drive/merge_markdown.py:69-75 | a 404 on the first attempt is raised after one attempt and no wait |
| MdRetry.OtherErrorRaisedOnLast | merge_markdown.py:76-80 | an exception other than HttpError is retried twice, after waits of 2 and 4, and raised on the third attempt |
| MdRetry.RecoversAfterOneFailure | merge_markdown.py:66-74 | a 502 and then a success returns the text after two attempts and one wait of 2 |
| MdTraversal.RecurseMdFiles | merge_markdown.py:55-61 | every file yielded has a title ending in `.md`, in any case |
| MdTraversal.IsMarkdownTitle | merge_markdown.py:60 | definition of `title.lower().endswith('.md')`; properties in MdTraversal.MarkdownTitleExamples |
| MdTraversal.FilterMdAppend | merge_markdown.py:60 | filtering a concatenation filters each part |
| MdTraversal.TraversalIsFilteredPreorder | merge_markdown.py:55-61 | the traversal is the depth-first list of all files with the non-Markdown ones dropped: nothing reordered |
| MdTraversal.FilterMdMembers | merge_markdown.py:60 | a file survives the filter exactly when its title ends in `.md` |
| MdTraversal.TraversalMembers | merge_markdown_from_google_drive/merge_markdown.py:55-61 | a file is yielded exactly when it is somewhere in the tree and its title ends in `.md` |
| MdTraversal.MarkdownTitleExamples | merge_markdown.py:60 | `Notes.MD` is collected; `notes.txt` and `md` are not |
| MdMerge.Section | merge_markdown.py:99 | each written section starts with the separator |
| MdMerge.Entries | merge_markdown.py:94-95 | definition: each file's title paired with what its download ended with; used by MdMerge.FolderSpec |
| MdMerge.OutFile.constructor | merge_markdown.py:93 | a file opened with `'w'` starts empty |
| MdMerge.OutFile.Write | merge_markdown.py:99 | a write appends its text |
| MdMerge.WriteLoopStep | merge_markdown.py:94-99 | writing one returned text moves its section from the rest of the bundle into the file |
| MdMerge.Bundled | merge_markdown.py:93-99 | definition of the write loop over download outcomes; properties in MdMerge.BundledAppend, NoTextSkipped, AbortedIff and BundleIsSections |
| MdMerge.FolderSpec | merge_markdown.py:84-101 | definition of `merge_folder`'s effect; MdMerge.MergeFolder is proved equal to it |
| MdMerge.MergeFolder | merge_markdown.py:84-101 | the outcome is the folder's specification: nothing written without Markdown files; otherwise the file's content, or what it held when an exception escaped |
| MdMerge.BundledAppend | merge_markdown.py:94-99 | bundling two lists is bundling the first and then, unless it raised, the second |
| MdMerge.NoTextSkipped | merge_markdown.py:96-98 | a file whose download gave None leaves the bundle as if it were not there |
| MdMerge.AbortedIff | merge_markdown.py:95 | the bundle is cut short exactly when some download raised |
| MdMerge.AllSkippedIsEmpty | merge_markdown.py:93-98 | when every download gives None the file is written empty |
| MdMerge.StartsWithSeparator | merge_markdown.py:99 | a non-empty bundle starts with the separator |
| MdMerge.Sections | merge_markdown.py:99 | definition: one section per written file; the bundle is stated in terms of it by MdMerge.BundleIsSections |
| MdMerge.BundleIsSections | merge_markdown.py:93-99 | the bundle is the sections of the returned texts, in order, joined |
| MdMerge.BundleExample | merge_markdown.py:94-99 | texts a, None, c give `SEPARATOR# a.md\n\n` a `SEPARATOR# c.md\n\n` c |
| MdMerge.OutputName | merge_markdown.py:86 | definition of `f"{folder['title']}.md"`; used by MdMerge.UntouchedKept and LastWriterWins |
| MdMerge.MergeAll | merge_markdown.py:118-119 | definition of the folder loop of `main`; properties in MdMerge.CrashIff, UntouchedKept and LastWriterWins |
| MdMerge.MergeMarkdownMain | merge_markdown.py:104-119 | no top-level folder exits at once; otherwise the folders are merged in turn, the run crashes exactly when the folder loop raises, and the output directory is the one the loop leaves |
| MdMerge.CrashIff | merge_markdown.py:118-119 | the run crashes exactly when some folder's bundle raised |
| MdMerge.UntouchedKept | merge_markdown.py:88-91 | a file name that only Markdown-less folders map to keeps what the directory held |
| MdMerge.LastWriterWins | merge_markdown.py:86-93 | in a run without a crash, the last folder that writes a name decides its content |

## Left out

- Authentication (`auth_drive`), the Drive listing queries (`glist`, the mimeType and `trashed` filters), the GitHub client, token check and search query, and `GithubException`: these are calls into services. The listing is given as a tree of folders and files, and the issues as a list.
- `merge_pdfs` and pypdf: writing PDF files is a library call. The model plans each merge as a name and a group.
- `sorted(folder.glob("*.pdf"))`: the PDF list is given already sorted.
- `print`, `tqdm`, `time.sleep`, `mkdir`, `sys.exit` messages and argparse: output and I/O. The back-off waits are recorded in order instead of slept.
- The issue layout (number, title, dates, author, labels, comments) is text formatting of service data. Only the state, assignees and body fallbacks are modelled.
- `GithubIssues.PerFile`: `math.ceil(len / FILES_WANTED)` goes through a float. It is modelled as the integer ceiling, which is the same for every list shorter than 2^53.
- `Format.Lower`: models ASCII letters only; Python's `lower()` also lowers non-ASCII letters.
- `MdRetry.SafeDownloadMd`: models the outcomes the code catches (HttpError and any other Exception). A BaseException that is not an Exception, such as KeyboardInterrupt, escapes on the attempt where it happens, without a retry. The model does not represent it.
- `MdTraversal.RecurseMdFiles`: a folder is recognised by its constructor rather than by its mimeType string.
- `MdMerge.OutFile`: models only the text written, not the encoding, the handle or its closing.
- `MdMerge.Downloaded`: the download outcome depends only on (file id, attempt number), so the same file downloaded by two folders is answered the same way.
- `MdMerge.MergeMarkdownMain`: the output directory is a map from file name to content; file-system errors and metadata are not modelled.
