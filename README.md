# Conversational memory of the chat agent, modelled in Dafny

This project models the backend conversational-memory logic of the LiveKit chat agent, and one URL
rewrite of its frontend:

- **the message store** (`SQLiteMemory` over the `messages` table): `save` appends a row with the next
  autoincrement id and a server timestamp; `search(user_id, k, query)` returns up to `k` of the
  user's rows, newest first, filtered by SQLite `LIKE '%query%'` when the query is non-empty;
- **one chat turn** (`handle_user_message`): read the five most recent texts as context, generate a
  reply, save the user's message, save the reply, return the reply;
- **reply generation** (`_try_gemini`, `generate_reply`): the API-key guard, the prompt (a fixed
  header, `Context: c` for the last five context messages, the user's text, joined by newlines) and
  the fallback to the stub echo `(stub) You said: <text>`;
- **the alternate LiveKit WebSocket URL**: a trailing `/rtc` is removed, otherwise `/rtc` is appended
  after dropping at most one trailing `/`.

Files, one module each: `wrappers.dfy` (`Option`), `sql_like.dfy` (SQLite's `LIKE`),
`memory_store.dfy` (rows, the search as a function over the row sequence, the `SqliteMemory`
class), `llm_client.dfy`, `chat_agent.dfy`, `livekit_url.dfy`.

Modelling choices:

- The table is a `seq<Row>` in insertion order and a `nextId` counter, fields of the class
  `SqliteMemory`; `Save` is a method that changes them. `Search` is a read-only function; the
  selection itself is `Select`, a function of the rows: filter (`Eligible`), sort by `created_at`
  descending (`SortNewestFirst`), keep the first `k`.
- `created_at` is the integer `now` handed to `Save` (the server clock is a parameter). It need not
  increase: the search sorts by it, as the SQL `ORDER BY` does. The order among equal timestamps is
  left unspecified by SQLite. The model's sort has to pick one: rows with equal timestamps come back in
  table order. Contracts that give `Select`'s exact value (`HandleUserMessage`'s reply,
  `OtherUsersUnaffected`, `TurnLeavesOtherUsers`, `TakeAll`) inherit that choice, which SQLite does
  not promise; the contracts of `Select` itself (newest first, completeness up to `k`) hold for any
  tie order.
- `LIKE` is defined outright: `%` matches any run of characters, `_` exactly one, and other
  characters match up to ASCII case (SQLite's default, no `ESCAPE` clause). For a query with no
  wildcard it is proved equal to case-insensitive substring containment, and `_` is shown to be a
  wildcard.
- The Gemini SDK call is an oracle `model(apiKey, prompt): Option<string>`. `None` stands for a raised
  exception (caught by `except Exception`) or a response without text. The API key is a parameter
  (the settings lookup is not part of the model).
- `context_messages` of type `Optional[List[str]]` is a `seq<string>`; `None` and `[]` behave alike
  (`if context_messages:` skips both).
- `k` is a `nat`: SQLite reads a negative `LIMIT` as "no limit", which callers here never pass.
- Three behaviours of the code that a reader might expect otherwise. The search filter is `LIKE`
  (ASCII case-insensitive, with wildcards), not case-sensitive substring containment. Rows with
  equal `created_at` come back in no fixed order, not in insertion order. The context reaches the
  prompt newest first, as `search` returns it, not in chronological order.
  Because `search` already returns at most five rows, the `[-5:]` in the prompt builder keeps all of
  them.

## Model

| member | source | states |
|---|---|---|
| `SqlLike.LikeMatchIsContainment` | backend/app/services/memory_store.py:47-49 | for a query without `%` or `_`, `text LIKE '%query%'` holds exactly when the text contains the query up to ASCII case (both directions) |
| `SqlLike.SubstringMatches` | backend/app/services/memory_store.py:47-49 | a text containing the query (up to ASCII case) always passes the filter, whatever wildcards the query holds |
| `SqlLike.UnderscoreIsWildcard` | backend/app/services/memory_store.py:47-49 | the filter is not plain containment: "cat" passes a search for "c_t" without containing it |
| `SqlLike.LikeConcat` | backend/app/services/memory_store.py:48-49 | LIKE matches compose: matching text pieces against pattern pieces matches the concatenations |
| `SqlLike.LikeLeadingPercent` | backend/app/services/memory_store.py:48 | a leading `%` in the pattern skips some prefix of the text |
| `SqlLike.LikeLiteralPrefix` | backend/app/services/memory_store.py:48 | a wildcard-free pattern followed by `%` matches only texts it prefixes up to ASCII case |
| `SqlLike.Like` | backend/app/services/memory_store.py:48-49 | SQLite's `LIKE` (`%` any run, `_` one character, others up to ASCII case); a pattern without `%` only matches texts of its own length |
| `SqlLike.LikeMatch` | backend/app/services/memory_store.py:48-49 | `text LIKE '%query%'`; with an empty query (`'%%'`) every text passes |
| `MemoryStore.Matches` | backend/app/services/memory_store.py:46-49 | the WHERE clause: a passing row belongs to the user, and with no query or an empty one every row of the user passes |
| `MemoryStore.MatchesPlainQuery` | backend/app/services/memory_store.py:46-49 | for a non-empty query without wildcards, a row passes exactly when it is the user's and contains the query up to ASCII case |
| `MemoryStore.Eligible` | backend/app/services/memory_store.py:46-49 | a row is kept exactly when it belongs to the user and, for a non-empty query, LIKE-matches it; kept rows are stored rows |
| `MemoryStore.EligibleSubMultiset` | backend/app/services/memory_store.py:46-49 | the WHERE clause never keeps a row more often than the table holds it |
| `MemoryStore.SortNewestFirst` | backend/app/services/memory_store.py:50 | `ORDER BY created_at DESC`: the result is newest first and a permutation of its input |
| `MemoryStore.TakeNewest` | backend/app/services/memory_store.py:50 | `LIMIT k` on newest-first rows keeps them newest first; a dropped row exists only when `k` rows were kept and is no newer than the last kept |
| `MemoryStore.TakeOmitsOnlyOlder` | backend/app/services/memory_store.py:50 | a row dropped by `LIMIT k` from newest-first rows is dropped only when `k` rows were kept, and it is no newer than the last kept |
| `MemoryStore.Select` | backend/app/services/memory_store.py:43-61 | `search`: at most `k` rows (none for `k = 0`), all stored rows unchanged, all of the user, all LIKE-matching a non-empty query, newest first; an eligible row is left out only when `k` rows came back, and it is no newer than the last of them; a user with no rows gets an empty list |
| `MemoryStore.SelectSubMultiset` | backend/app/services/memory_store.py:46-51 | `search` returns no stored row more often than the table holds it |
| `MemoryStore.EligibleAppend` | backend/app/services/memory_store.py:46-49 | filtering the table distributes over rows appended to it |
| `MemoryStore.OtherUsersUnaffected` | backend/app/services/memory_store.py:46 | rows saved for one user never change another user's search result |
| `MemoryStore.FirstTurnRecall` | backend/app/services/memory_store.py:46-50 | a user with no history who saves a message and then a strictly later reply gets exactly `[reply row, message row]` from `search(k=5)` |
| `MemoryStore.EligibleOfStranger` | backend/app/services/memory_store.py:46 | a table holding no row of the user yields no eligible row for them |
| `MemoryStore.EligibleAfterFirstTurn` | backend/app/services/memory_store.py:46 | after a first turn the user's eligible rows are exactly the message row and the reply row, in table order |
| `MemoryStore.SortTwo` | backend/app/services/memory_store.py:50 | two rows with distinct timestamps are ordered newer first |
| `MemoryStore.SortTieKeepsTableOrder` | backend/app/services/memory_store.py:50 | the model resolves a tie on `created_at`, which `ORDER BY created_at DESC` leaves open, by keeping table order |
| `MemoryStore.TakeAll` | backend/app/services/memory_store.py:50 | with at most five eligible rows, `LIMIT 5` keeps all of them, newest first |
| `MemoryStore.SqliteMemory.constructor` | backend/app/services/memory_store.py:30-33 | a new store has an empty table whose first id will be 1 |
| `MemoryStore.SqliteMemory.Save` | backend/app/services/memory_store.py:35-41 | appends exactly one row holding `user_id`, `text` and `metadata` verbatim, stamped with the clock; earlier rows are unchanged; the returned id is SQLite's next rowid (the largest id plus one, or 1 for an empty table), exceeds every id in the table, and the ids stay strictly increasing |
| `MemoryStore.SqliteMemory.Search` | backend/app/services/memory_store.py:43-61 | read-only: at most `k` of the current rows, all of the requested user (the full contract is `Select`'s) |
| `LlmClient.Join` | backend/app/services/llm_client.py:19 | `"\n".join(parts)`: empty for no parts, otherwise it starts with the first part and ends with the last |
| `LlmClient.Recent` | backend/app/services/llm_client.py:15-16 | `context_messages[-5:]`: the last `min(5, n)` messages, in their order |
| `LlmClient.ContextLines` | backend/app/services/llm_client.py:16-17 | one `"Context: " + c` line per message, same order and count |
| `LlmClient.PromptParts` | backend/app/services/llm_client.py:14-18 | `prompt_parts`: first the header `You are a helpful assistant.`, last the user's text, between them `"Context: " + c` for each of the last five messages in order |
| `LlmClient.JoinContextThenText` | backend/app/services/llm_client.py:17-19 | newline-joining the context lines and the user's text gives each context line followed by a newline, then the text |
| `LlmClient.Prompt` | backend/app/services/llm_client.py:14-19 | the prompt string equals header + `"\n"` + `"Context: " + c + "\n"` for each recent message + the user's text |
| `LlmClient.PromptWithoutContext` | backend/app/services/llm_client.py:15-19 | with no context the prompt is exactly header, `"\n"`, user's text |
| `LlmClient.BuildPrompt` | backend/app/services/llm_client.py:14-19 | the appending loop builds exactly `Prompt(user_text, context)` |
| `LlmClient.GeminiAnswer` | backend/app/services/llm_client.py:6-22 | `_try_gemini` as a value: `None` without a key, otherwise the model's answer to header + `"\n"` + the context lines + the user's text |
| `LlmClient.TryGemini` | backend/app/services/llm_client.py:6-22 | `None` when the key is absent or empty; otherwise the model's answer to the prompt, `None` standing for an exception |
| `LlmClient.Fallback` | backend/app/services/llm_client.py:30-35 | a non-empty answer is the reply, anything else gives `"(stub) You said: " + user_text`; the reply is never empty |
| `LlmClient.Reply` | backend/app/services/llm_client.py:25-35 | what `generate_reply` returns is never empty |
| `LlmClient.StubWithoutKey` | backend/app/services/llm_client.py:7-8 | without a key (absent or empty) the reply is `"(stub) You said: " + user_text`, whatever the model would answer |
| `LlmClient.GenerateReply` | backend/app/services/llm_client.py:25-35 | the method (guard, prompt-building loop, model call, fallback) returns exactly `Reply`, the fallback applied to the model's answer to the built prompt |
| `ChatAgent.ContextTexts` | backend/app/agents/chat_agent.py:20 | the texts of the context rows, same count and order |
| `ChatAgent.HandleUserMessage` | backend/app/agents/chat_agent.py:17-24 | the reply is generated from the context read before any save (newest-first texts of `search(user_id, k=5)` on the old table) and is returned unchanged and non-empty; exactly two rows are appended for the user, the message with role `user` under the next rowid and then the reply with role `assistant` under the one after; the next rowid advances by two |
| `ChatAgent.AnswerAndStore` | backend/app/agents/chat_agent.py:21-23 | the reply is the one generated from the given context; then the message row and the reply row, with consecutive ids starting at the next rowid, are appended, the next rowid advances by two, and nothing else changes |
| `ChatAgent.StoreTurn` | backend/app/agents/chat_agent.py:22-23 | the two saves: the message row with role `user` under the next rowid, then the reply row with role `assistant` under the one after, appended in that order; the next rowid advances by two |
| `ChatAgent.ContextPredatesTurn` | backend/app/agents/chat_agent.py:19-23 | every context row has an id below the ids the turn's saves receive, so neither the message nor its reply is in its own context |
| `ChatAgent.ContextShape` | backend/app/agents/chat_agent.py:19-20 | the context is at most five texts, taken from the user's own rows, newest first |
| `ChatAgent.TurnLeavesOtherUsers` | backend/app/agents/chat_agent.py:22-23 | a turn changes no other user's search result |
| `ChatAgent.FirstTurnThenContext` | backend/app/agents/chat_agent.py:19-23 | after a first turn at increasing times, the next turn's search returns exactly the reply row, then the message row |
| `ChatAgent.FirstTurnContextTexts` | backend/app/agents/chat_agent.py:19-23 | the texts the next turn passes on as context are `[reply, message]` |
| `LivekitUrl.StripTrailing` | frontend/src/pages/MinimalLivekitTest.tsx:24 | an anchored `replace(/x$/, '')` removes one trailing `x` if present and otherwise changes nothing |
| `LivekitUrl.AltUrl` | frontend/src/pages/MinimalLivekitTest.tsx:24 | a URL ending in `/rtc` loses exactly that suffix; any other URL gains `/rtc` after at most one trailing `/` is dropped, the rest kept verbatim |
| `LivekitUrl.AltUrlToggleBack` | frontend/src/pages/MinimalLivekitTest.tsx:24 | for a URL ending in neither `/` nor `/rtc`, rewriting twice gives the URL back |
| `LivekitUrl.AltUrlToggleBackFromRtc` | frontend/src/pages/MinimalLivekitTest.tsx:24 | for a `/rtc` URL whose base ends in neither `/` nor `/rtc`, rewriting twice gives the URL back |

## Left out

- The code as written fails before the modelled behaviour is reached, and the model describes it as if
  both defects were repaired. `generate_reply` reads `settings.gemini_api_key`
  (backend/app/services/llm_client.py:30), but `Settings` declares no such field (it has
  `openai_api_key`, backend/app/utils/config.py:14-29), so the lookup raises `AttributeError`;
  `handle_user_message` then raises after its search and saves nothing. The model takes the key as
  a declared setting, passed in as `apiKey`.
- `chat_agent.py` imports `Mem0Memory` from `memory_store.py` (backend/app/agents/chat_agent.py:13),
  which does not define it, so importing the agent module fails. The model treats the module as
  importable without that name.
- TryGemini: states that the answer is `None` whatever the model would return when the key is missing, not that the model is never called, because the oracle is a pure function and a call to it is not observable.
- The SQLAlchemy engine, sessions and `create_all`, the SQLite file, thread settings and concurrent access: the table is a sequence updated in place, and the constructor starts from an empty table (a database file written by this code, which never deletes, is any state satisfying `Valid()`: ids increasing in insertion order and the next rowid one more than the last id, as SQLite assigns rowids to an integer primary key without the `AUTOINCREMENT` keyword).
- Select: SQLite rejects a `LIKE` pattern longer than its `SQLITE_MAX_LIKE_PATTERN_LENGTH` (50000 bytes by default) with "LIKE or GLOB pattern too complex", so `search` raises when `'%' + query + '%'` exceeds that length and the LIKE is evaluated on one of the user's rows; the model returns rows for such a query, since the limit is a build setting of the SQLite library, not of this code.
- Storage failures: `Save` always succeeds; a failing database and the exceptions it raises are not modelled.
- Timestamps: `func.now()` at second resolution and the `isoformat()` string are replaced by an integer supplied to `Save`; the two rows of a turn usually share a second in the source, and then SQLite promises no order between them in a later search, while the model returns them in table order (`SortTieKeepsTableOrder`).
- Metadata values: the JSON column is modelled as an optional map from strings to strings, enough for `{"role": ...}`.
- SQLite's `String(255)` length on `user_id` (which SQLite does not enforce) and rowid exhaustion at 2^63.
- `memory or SQLiteMemory()` in `handle_user_message`: with no store given the source opens the default `memory.db` file, whose contents the model cannot know; the store is always passed in.
- The Gemini SDK (`configure`, `GenerativeModel`, probing `text` and `candidates` of the response) and the settings lookup of the API key: replaced by the oracle and a key parameter.
- `run_agent` (LiveKit job connection, data-packet callbacks, token grants): network and event plumbing.
- `Mem0Memory`: imported but not defined in `memory_store.py`; no remote save/search or fallback is modelled.
- The FastAPI route and the command-line client, which repeat the turn sequence; token issuance; configuration loading; application wiring.
- The React UI and the asynchronous connect/retry flow around the alternate URL; only the URL expression is modelled.
