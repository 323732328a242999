# Tag extraction of the three-worker orchestrator

The script `Learning/lecture3/main.py` sends one prompt to a language model
and asks it for three tasks, each wrapped in a `<workerN>` tag. It reads each
task back out of the reply, sends each task to the model, and reads each
answer back out of an `<output>` tag. Six one-line functions do the reading,
and all six use the same chain of Python string operations on the reply text
`content`:

    content.split('```')[1].split(OPEN)[1].split(CLOSE)[0].split("<")[0].strip()

This project models that chain as one extractor, `TagExtract.ExtractTag(content,
tag)`, that takes the tag name as a parameter. The six source functions are
instances of it. The model has four parts:

- `Wrappers` — an `Option` type. `None` stands for the `IndexError` that a
  missing `[1]` element raises.
- `PySplit` — `str.split(sep)` for a non-empty literal separator. It covers
  the two indexings the chain uses: `SplitFirst` for `[0]` (the text before
  the first occurrence, or the whole string) and `SplitSecond` for `[1]` (the
  text between the first and second occurrence, or up to the end; `None`
  when the separator is absent). Positions are stated with the leftmost
  occurrence (`IndexOf`, `FirstAt`). `Split`/`Join` are the full list and
  its inverse.
- `PyStrip` — the argument-less `str.strip()`. Whitespace is the exact set
  of 29 code points for which Python 3's `str.isspace()` holds.
- `TagExtract` and `ExtractLaws` — the extractor and its properties:
  - when it fails;
  - what a result cannot contain;
  - where a result lies in the reply;
  - which parts of the reply it ignores;
  - that the closing-tag step and a second opening tag never change the
    result;
  - that a reply in the requested format gives back its text.

The prompts (main.py:39-49, 71-75) ask for plain XML. The extractors only
succeed when the reply also wraps that XML in a markdown code fence. A reply
that follows the prompt literally, with no fence, makes `ExtractTag` return
`None` (Python's `IndexError`). This follows from the failure condition of
`TagExtract.ExtractTag`.

## Model

| member | source | states |
|---|---|---|
| `PySplit.IndexOf` | Learning/lecture3/main.py:53 | The index where `split` cuts: `Some(i)` means `sep` occurs at `i` and at no earlier index; `None` means `sep` occurs nowhere |
| `PySplit.FirstAtIsIndexOf` | Learning/lecture3/main.py:53 | The leftmost occurrence is unique: any occurrence with none before it is the one `IndexOf` returns |
| `PySplit.SplitFirst` | Learning/lecture3/main.py:53 | `split(sep)[0]` is a prefix of `s`, no occurrence of `sep` starts inside it, and it ends either at the end of `s` or at an occurrence of `sep` |
| `PySplit.SplitFirstUnique` | Learning/lecture3/main.py:53 | Any prefix that ends at the first occurrence (or at the end when there is none) is `split(sep)[0]`, so the contract above pins it down |
| `PySplit.SplitSecond` | Learning/lecture3/main.py:53 | `split(sep)[1]` raises `IndexError` (`None`) exactly when `sep` does not occur in `s` |
| `PySplit.SplitSecondPiece` | Learning/lecture3/main.py:53 | When `sep` occurs, `split(sep)[1]` is the text of `s` that starts right after the first occurrence and runs to the next occurrence or to the end of `s` |
| `PySplit.FirstAtPrefix` | Learning/lecture3/main.py:53 | If `a + sep` has its first `sep` at the end, then the first `sep` of `a + sep + rest` is the same one, whatever `rest` is |
| `PySplit.SplitFirstAtPrefix` | Learning/lecture3/main.py:53 | If the first `sep` of `a + sep + rest` is the one right after `a`, then `split(sep)[0]` is `a` |
| `PySplit.SplitSecondAtPrefix` | Learning/lecture3/main.py:53 | Under the same condition, `split(sep)[1]` is `rest.split(sep)[0]` |
| `PySplit.Split` | Learning/lecture3/main.py:53 | The full list `s.split(sep)` always has at least one piece |
| `PySplit.SplitPiecesFree` | Learning/lecture3/main.py:53 | No piece of `s.split(sep)` contains `sep` |
| `PySplit.JoinSplit` | Learning/lecture3/main.py:53 | Round trip: `sep.join(s.split(sep)) == s` |
| `PySplit.SplitIndexing` | Learning/lecture3/main.py:53 | Element `[0]` of the full split is `SplitFirst`; element `[1]` exists exactly when `SplitSecond` succeeds, and then the two are equal |
| `PySplit.Join` | Learning/lecture3/main.py:53 | `sep.join(parts)`: the empty list joins to `""`; otherwise the first piece begins the result and the last piece ends it, and when there are two or more pieces a `sep` follows the first |
| `PyStrip.IsSpaceExactly` | Learning/lecture3/main.py:53 | The whitespace `strip()` removes is exactly the 29 listed code points of Python 3's `str.isspace()`, all distinct: the range-based `IsSpace` holds for a character exactly when it is in that list |
| `PyStrip.Strip` | Learning/lecture3/main.py:53 | `strip()` leaves no whitespace at either end. Its result is the slice of `s` that starts where the leading whitespace ends, and only whitespace follows it |
| `PyStrip.StripUnique` | Learning/lecture3/main.py:53 | Characterisation: if `t` has no whitespace at either end, then `strip` of whitespace + `t` + whitespace is `t` |
| `PyStrip.StripIdempotent` | Learning/lecture3/main.py:53 | Stripping twice is the same as stripping once |
| `PyStrip.StripAvoids` | Learning/lecture3/main.py:53 | `strip` only removes characters: a character absent from `s` is absent from the result |
| `TagExtract.FromSegment` | Learning/lecture3/main.py:53 | Steps two to five of the chain, for any tag strings: a result holds no `<` and has no whitespace at either end |
| `TagExtract.Chain` | Learning/lecture3/main.py:53 | The chain with the tag strings as parameters: fails exactly when the reply has no fence or its first fenced segment lacks the opening tag. A result holds no `<` and has no whitespace at either end |
| `TagExtract.ExtractWorker1Task` | Learning/lecture3/main.py:52-53 | `extract_worker1_task`: fails (`IndexError`) exactly when the reply has no fence or its first fenced segment lacks `<worker1>`. A result holds no `<` and has no whitespace at either end |
| `TagExtract.ExtractWorker2Task` | Learning/lecture3/main.py:55-56 | `extract_worker2_task`: fails (`IndexError`) exactly when the reply has no fence or its first fenced segment lacks `<worker2>`. A result holds no `<` and has no whitespace at either end |
| `TagExtract.ExtractWorker3Task` | Learning/lecture3/main.py:58-59 | `extract_worker3_task`: fails (`IndexError`) exactly when the reply has no fence or its first fenced segment lacks `<worker3>`. A result holds no `<` and has no whitespace at either end |
| `TagExtract.ExtractWorker1Output` | Learning/lecture3/main.py:78-79 | `extract_worker1_output`: fails (`IndexError`) exactly when the reply has no fence or its first fenced segment lacks `<output>`. A result holds no `<` and has no whitespace at either end |
| `TagExtract.ExtractWorker2Output` | Learning/lecture3/main.py:96-97 | `extract_worker2_output`: fails (`IndexError`) exactly when the reply has no fence or its first fenced segment lacks `<output>`. A result holds no `<` and has no whitespace at either end |
| `TagExtract.ExtractWorker3Output` | Learning/lecture3/main.py:114-115 | `extract_worker3_output`: fails (`IndexError`) exactly when the reply has no fence or its first fenced segment lacks `<output>`. A result holds no `<` and has no whitespace at either end |
| `TagExtract.ExtractTag` | Learning/lecture3/main.py:52-59 | Extraction fails exactly when the reply has no fence, or when the first fenced segment lacks the opening tag. A result holds no `<` and has no whitespace at either end |
| `TagExtract.TaskExtractorsAreInstances` | Learning/lecture3/main.py:52-59 | `extract_worker{1,2,3}_task` are the tag-parametric extractor with tags `worker1`, `worker2`, `worker3` |
| `TagExtract.Worker1OutputIsInstance` | Learning/lecture3/main.py:78-79 | `extract_worker1_output` is the tag-parametric extractor with tag `output` |
| `TagExtract.Worker2OutputIsInstance` | Learning/lecture3/main.py:96-97 | `extract_worker2_output` is the same extractor with tag `output`, so it equals `extract_worker1_output` |
| `TagExtract.Worker3OutputIsInstance` | Learning/lecture3/main.py:114-115 | `extract_worker3_output` is the same extractor with tag `output`, so all three output extractors are one function |
| `ExtractLaws.ExtractPosition` | Learning/lecture3/main.py:53 | A result is a contiguous substring of the reply. It starts at or after the end of the first opening tag inside the first fenced segment and ends inside that segment |
| `ExtractLaws.ExtractHasNoFence` | Learning/lecture3/main.py:53 | A result contains no fence |
| `ExtractLaws.FencedSegmentOnly` | Learning/lecture3/main.py:53 | When the first fence comes right after `a` and the next one right after `segment`, the result depends on `segment` alone |
| `ExtractLaws.UnclosedFenceSegment` | Learning/lecture3/main.py:53 | With one fence and no second, the segment runs to the end of the reply |
| `ExtractLaws.SurroundingTextIgnored` | Learning/lecture3/main.py:53 | Text before the first fence and after the second fence does not affect the result |
| `ExtractLaws.CutAtLtAbsorbs` | Learning/lecture3/main.py:53 | Cutting at a separator that starts with `<` and then at the first `<` is the same as cutting at the first `<` directly |
| `ExtractLaws.ClosingTagRedundant` | Learning/lecture3/main.py:53 | The extractor equals the chain without `.split('</tag>')[0]`: the closing-tag step never changes the result |
| `ExtractLaws.FromSegmentDirect` | Learning/lecture3/main.py:53 | On a segment, when both tag strings start with `<`, steps two to five equal "text after the first opening tag, up to the first `<`, stripped" |
| `ExtractLaws.FirstOpenTagOnly` | Learning/lecture3/main.py:53 | Only the first opening tag matters. The extractor equals the direct reading, which never looks for a second opening tag |
| `ExtractLaws.CutBeforeCloseTag` | Learning/lecture3/main.py:53 | The text that follows the opening tag is whitespace, then `text` with no `<`, then whitespace, then the closing tag. Cutting it at the first `<` keeps exactly the part before the closing tag |
| `ExtractLaws.FormattedReplyRoundTrip` | Learning/lecture3/main.py:39-53 | Round trip: a reply that holds the requested `<tag>` block inside a fence, with `text` padded by whitespace, extracts to `Some(text)`. This needs `text` to have no whitespace at either end and no `<` |

## Left out

- Reading the API key, the `input` call, the model calls (`llm.invoke`) and every `print` (main.py:17-28, 61-65, 81-83, 99-101, 117-119). These are I/O and network calls. The reply text `content` is the model's only input.
- Building the prompts by f-string interpolation (main.py:30-50, 67-76, 85-94, 103-112). This is configuration text with no logic. Only the reply format it asks for appears, as the shape assumed by `ExtractLaws.FormattedReplyRoundTrip`.
- The `result.content` attribute access. The model takes `content` directly.
- PySplit.SplitFirst and PySplit.SplitSecond: Python raises `ValueError` for an empty separator. The model puts this in a `requires |sep| > 0` instead of an error result, because every separator in the source is a non-empty literal.
- The other scripts of the repository (the `pydantic/lecture17_*.py` and `Langgraph/*.py` files). They only wire external SDKs, with async event loops, HTTP calls and tracing. The schema checks they declare, such as `Field(ge=1, le=10)`, are enforced by the external validation library, and the `get_review_length` tool is a bare `len` dispatched by an external agent framework.
