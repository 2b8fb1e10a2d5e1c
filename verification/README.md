# Photo re-posting pipeline and chat dispatch of the bot, in Dafny

This project models the part of the Telegram bot that carries logic.

- **The links store** (`load_links` / `save_links` in `photos.py`). It is a JSON object that maps a source key to a list of post ids. Here it is a `LinksFile`: missing, unreadable, or a stored `map<string, set<Id>>`.
- **The retry loop of `send_files`.** The outcome of each Telegram attempt comes from an oracle `delivers: nat -> bool`. The method records the attempts, the backoff sleeps (5, then 10 seconds), whether delivery happened, and the returned `set(urls)`.
- **The VK photo check `check_bravo_photos`.**
  - The loop over the fetched posts is a fold, `BravoCheck.Process`. It skips known ids, reposts and pinned posts. It marks every other post known before its send, builds the media group from the photo attachments in order, and pauses once per processed post.
  - `BravoCheck.CheckBravoPhotos` wraps the fold between a load and a save of the `bravo_posts` key.
  - The caption clean-up `re.sub(r'\[(club|id)\d+\|([^\]]+)\]', r'\2', text)` followed by `result or None` is `Mentions.Caption`. It runs the same left-to-right scan `re.sub` performs.
- **The chat side in `main.py`.** `handle_words` becomes `Dispatch.HandleWords`. It turns a message into an ordered list of link requests: `Movie` for `type_m='movie'` and `TvSeries` for `type_m='tv-series'`. `check_tokens` becomes `Dispatch.CheckTokens`.

Modules, one per file: `Common` (Option / Result), `LinksStore`, `SendRetry`, `Mentions`, `BravoCheck`, `Dispatch`.

## Behaviour worth noting

- `load_links` and `save_links` in photos.py catch only `FileNotFoundError`. A links file that exists but is not a JSON object makes both raise. The model returns `Err(StoreUnreadable)` for it, and `CheckBravoPhotos` then fails before anything is sent.
- A processed post's id is added to the known set before `send_files` runs. The result of `send_files` is ignored, so a post whose delivery failed on all three attempts is still saved as known and is never retried. This is why the fold does not depend on delivery at all.

The caption is `None` exactly when the post text is empty (`Mentions.Caption`). Every mention the pattern matches has a non-empty display name, so a non-empty text never rewrites to the empty string.

## Model

| member | source | states |
|---|---|---|
| LinksStore.Load | photos.py:30-38 | A missing file, or a key the stored map lacks, loads as the empty set. A present key loads its stored ids. An unreadable file is an error. |
| LinksStore.Save | photos.py:41-50 | A missing file is treated as `{}`. The saved file maps the key to exactly the given set and keeps every other key and its value. The key set grows by the key alone. An unreadable file is an error. |
| LinksStore.LoadAfterSave | photos.py:30-50 | Loading a key right after saving a set under it gives back that set. |
| LinksStore.LoadOtherAfterSave | photos.py:41-50 | Saving under one key does not change what any other key loads. |
| LinksStore.SaveLoadedIsNeutral | photos.py:30-50 | Saving back the set just loaded under a key changes what no key loads. |
| LinksStore.SaveOverwrites | photos.py:41-50 | Two saves under the same key leave the same file as the second save alone. |
| SendRetry.Backoff | photos.py:74 | The first backoff is 5 seconds and each later one doubles the one before. |
| SendRetry.SendFiles | photos.py:54-78 | An empty url list makes no attempt. Otherwise attempts stop at the first success and never exceed 3. Every failed attempt except the last is followed by a sleep of `5 * 2^i`. No error escapes. The result is the set of the urls whether or not delivery succeeded. |
| SendRetry.ConformsIsDeterministic | photos.py:58-76 | The attempt count, sleeps and result are fully determined by the urls and the attempt outcomes. |
| SendRetry.DeliveredIffSomeAttemptSucceeds | photos.py:59-72 | Delivery happens exactly when one of the first three attempts would succeed, and the last attempt made is the first one that succeeds. |
| SendRetry.BackoffAtMostFifteen | photos.py:71-76 | A call never sleeps more than 15 seconds in total. |
| SendRetry.TotalFailure | photos.py:59-78 | Three failures give three attempts, sleeps of 5 and 10 and no sleep after the last one, no delivery, and the url set returned. |
| SendRetry.SuccessOnThirdAttempt | photos.py:59-76 | Two failures and then a success give three attempts, delivery, and sleeps of 5 and 10. |
| SendRetry.SuccessOnFirstAttempt | photos.py:59-69 | A first-attempt success makes one attempt and does not sleep. |
| Mentions.MatchAt | photos.py:120-122 | A match can only start at `[`. A matched mention ends inside the text and leaves a non-empty display name, at least five characters shorter than the mention. |
| Mentions.MatchAtAccepts | photos.py:120-122 | Every mention is matched in full, and the match yields exactly its name. A mention is `[`, then `club` or `id`, then at least one digit, a bar, a non-empty name without `]`, and `]`. |
| Mentions.MatchAtSound | photos.py:120-122 | Every match is exactly one mention written at its start: `[`, the kind `club` or `id`, at least one digit, a bar, a non-empty name without `]`, and `]`, with the match's name as that name. Together with `MatchAtAccepts`, a position starts a match exactly when a mention is written there. |
| Mentions.Rewrite | photos.py:120-122 | The rewrite never lengthens the text, and it is empty exactly when the text is. |
| Mentions.RewriteUnchangedIff | photos.py:120-122 | Text is left unchanged exactly when no position of it starts a match, which by `MatchAtSound` and `MatchAtAccepts` means no mention is written in it. |
| Mentions.RewriteCopiesPlainStretch | photos.py:120-122 | A stretch of text without `[` is copied verbatim. |
| Mentions.MentionReplacedByName | photos.py:120-122 | A mention at the scan position is replaced by its display name, and the scan continues right after the mention. |
| Mentions.RewriteFirstMention | photos.py:120-122 | Text before the first `[` is kept, and the first mention is replaced by its name. |
| Mentions.Caption | photos.py:119-123 | The caption is `None` exactly when the post text is empty. Otherwise it is the rewritten text. |
| Mentions.CaptionOfPlainTextAndMention | photos.py:119-123 | Plain text followed by one mention and more text captions as the plain text, then the name, then the rewrite of the rest. |
| BravoCheck.SendFor | photos.py:114-124 | A processed post is sent exactly when some attachment is a photo. The send carries the post's photo urls and its cleaned caption. |
| BravoCheck.Media | photos.py:114-118 | The media group has at most one url per attachment. What it holds is stated by `MediaEmptyIff`, `MediaFromPhotos` and `MediaAppend`. |
| BravoCheck.MediaEmptyIff | photos.py:114-118 | The media group is empty exactly when no attachment is a photo. |
| BravoCheck.MediaFromPhotos | photos.py:114-118 | Every url in the media group is the url of a photo attachment. |
| BravoCheck.MediaAppend | photos.py:114-118 | The media group keeps attachment order: the urls of a concatenation are the urls of the parts, concatenated. |
| BravoCheck.Process | photos.py:103-129 | The saved set is the loaded set plus the ids of all posts that are neither reposts nor pinned. Every send is for an id that was not loaded. No two sends share a post id. Every send has a photo. There is one pause per processed post, and each processed post adds one new id. |
| BravoCheck.ProcessMatchesReference | photos.py:105-127 | The loop sends exactly the reference sequence, in fetch order. That sequence holds one send for each post that is eligible, not loaded, not preceded in the batch by an eligible post with the same id, and has a photo. |
| BravoCheck.IneligibleIdUntouched | photos.py:105-111 | An id that only reposts or pinned posts carry is never sent and is neither added to nor removed from the known set. |
| BravoCheck.ProcessIdempotent | photos.py:106-129 | Running the loop again on the same batch against the set it produced sends nothing, pauses nowhere and adds nothing. |
| BravoCheck.CheckBravoPhotos | photos.py:100-129 | An unreadable links file is an error. Otherwise the `bravo_posts` key loads afterwards as the loaded set plus the eligible ids, and every other key loads as before. The run sends exactly the reference sequence of `ProcessMatchesReference`, in fetch order: only ids that were not loaded, no id twice, and each send with a photo. The 5-second pauses between posts add up to 5 seconds per eligible id that was not loaded. The backoff sleeps inside `send_files` are not counted there. |
| BravoCheck.CheckTwiceSendsNothing | photos.py:100-129 | A second run over the same batch against the file the first run saved sends nothing and leaves the file as it was. |
| Dispatch.Search | main.py:46-51 | The scan finds a keyword exactly when it occurs somewhere in the text. |
| Dispatch.HandleWords | main.py:43-53 | Without `ботя` in the lower-cased message there is no request. With it, a movie request is issued exactly when `кино` occurs and a series request exactly when `сериал` occurs. Each request is issued at most once, movie first. |
| Dispatch.Issued | movie.py:53-55 | The calls made are a prefix of the requests. Every call before the last one returned normally, and when the list is cut short the last call made is the one that raised. |
| Dispatch.IssuedWithoutRaise | main.py:46-53 | When no call raises, every request is issued. |
| Dispatch.HandleWordsRaising | main.py:43-53 | The calls made are a prefix of the requests `HandleWords` names, and all of them when no call raises. |
| Dispatch.MovieRaiseDropsSeries | main.py:48-53 | When the movie call raises, the handler ends after it and the series request is not made. |
| Dispatch.SeriesIssuedIff | main.py:46-53 | The series request is made exactly when the lower-cased message holds `ботя` and `сериал`, and no movie request was made whose call raised. |
| Dispatch.BothKeywords | main.py:43-53 | A message with the wake word and both keywords yields a movie request and then a series request. |
| Dispatch.HandleWordsIgnoresCase | main.py:46-51 | For an idempotent `lower`, lower-casing the message first does not change the requests. |
| Dispatch.HandleWordsIgnoresCaseLower | main.py:46-51 | With the Latin and Cyrillic lower-casing the model uses, lower-casing a message before handing it over does not change the requests. |
| Dispatch.LowerUndoesUpper | main.py:46-51 | Lower-casing the capital of a covered letter gives the letter back, and upper-casing the lower case of a capital gives the capital back. |
| Dispatch.LowerOfUpper | main.py:46-51 | Lower-casing an upper-cased text gives the same result as lower-casing the text itself. |
| Dispatch.HandleWordsUpperCase | main.py:46-53 | An upper-cased message makes the same requests as the message itself, so "БОТЯ, КИНО" acts like "ботя, кино". |
| Dispatch.LowerKeywords | main.py:46-51 | "БОТЯ" and "Ботя" lower-case to the wake word, "КИНО" to the movie keyword and "СЕРИАЛ" to the series keyword. |
| Dispatch.HandleWordsMonotone | main.py:46-53 | Adding text before or after a message never withdraws a request it already made. |
| Dispatch.FirstMissing | main.py:18-29 | No token is reported exactly when every token is set. A reported token is an unset entry of the table. |
| Dispatch.FirstMissingIsFirst | main.py:24-27 | A reported token is the first unset entry: every entry before it is set. |
| Dispatch.CheckTokens | main.py:18-29 | Returns false exactly when some token is `None`, stopping at the first such token and reporting its name. Returns true otherwise. |
| Dispatch.BotTokensChecked | main.py:15-29 | The bot's check passes exactly when `TOKEN` is set, and otherwise reports `TOKEN`. |

## Left out

- `vk_api_request` (network). The fetched posts are an input sequence. A failed request returns `{}`, and iterating over it gives no posts, which is the empty sequence here.
- File I/O, JSON encoding, `os.makedirs` and the temp folder. The links file is a value; `json.load` failing on an existing file is `Unreadable`.
- Telegram sending (`client.send_message`). Its outcome is the `delivers` oracle. `asyncio.sleep` is recorded as a list of durations or a pause count. Time and concurrency are not modelled.
- Logging. The name `check_tokens` logs is returned as a value instead.
- Mentions.IsDigit: Python's `\d` matches every Unicode decimal digit. The model accepts ASCII `0`-`9` only.
- Dispatch.Lower: `str.lower` covers all of Unicode. `Lower` and its partner `Upper` cover only Basic Latin `A`-`Z`/`a`-`z` and U+0400–U+045F (`Ѐ`-`Я` and `а`-`џ`). Other Cyrillic letters such as `Ґ` (U+0490) are left as they are. `HandleWords` itself takes any `lower` function.
- Dispatch.HandleWords: names the requests as if every `random_movie_link` call returns normally. That call catches `Exception`, but its `finally: os.remove(poster_path)` (movie.py:53-55) raises when `download_poster` returned `None`. The exception then ends `handle_words`. `HandleWordsRaising` models this path through a `raises` oracle, and `MovieRaiseDropsSeries` shows the series request is then not made.
- `random_movie_link`, currency, movie poster and GPT helpers. They are network and formatting glue; a request only records which `type_m` it would use.
- `main()` start-up and handler registration. `check_photos`, imported by `main.py`, is not part of this model.
- Malformed posts: a missing `id`, `attachments` or `text` key, or a photo without `orig_photo`, raises `KeyError` in photos.py. Posts here always carry these fields.
- Time gate and 1024-character caption truncation: neither exists in the code. `TIMESTAMP_FILE` is read but never used.
