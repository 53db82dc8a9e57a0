/**
 * One chat turn of the agent: read the user's five most recent messages as context,
 * generate a reply, store the user's message and then the reply, return the reply.
 */
module ChatAgent {
  import opened Wrappers
  import opened MemoryStore
  import opened LlmClient

  /** How many past messages are read as context (`k=5`). */
  const ContextSize := 5

  /** `{"role": "user"}` and `{"role": "assistant"}`. */
  const UserRole: Metadata := map["role" := "user"]
  const AssistantRole: Metadata := map["role" := "assistant"]

  /** `[m["text"] for m in past]`: the texts of the rows, in the order given. */
  function ContextTexts(past: seq<Row>): (texts: seq<string>)
    ensures |texts| == |past|
    ensures forall i :: 0 <= i < |past| ==> texts[i] == past[i].text
  {
    if past == [] then [] else [past[0].text] + ContextTexts(past[1..])
  }

  /** The row a turn stores for the user's message. */
  function MessageRow(id: int, userId: string, text: string, at: int): Row
  {
    Row(id, userId, text, Some(UserRole), at)
  }

  /** The row a turn stores for the reply. */
  function ReplyRow(id: int, userId: string, reply: string, at: int): Row
  {
    Row(id, userId, reply, Some(AssistantRole), at)
  }

  /**
   * `handle_user_message`: the context is read from the table as it was before the turn, so
   * it holds neither the new message nor its reply; the reply is the generated one; exactly
   * two rows are appended for the user, first the message, then the reply with the next id.
   */
  method HandleUserMessage(mem: SqliteMemory, userId: string, text: string, apiKey: Option<string>,
                           model: Model, userAt: int, replyAt: int)
    returns (reply: string)
    requires mem.Valid()
    modifies mem
    ensures mem.Valid()
    ensures reply == Reply(text, ContextTexts(Select(old(mem.rows), userId, ContextSize, None)), apiKey, model)
    ensures reply != ""
    ensures mem.rows == old(mem.rows) + [MessageRow(old(mem.nextId), userId, text, userAt)]
                                      + [ReplyRow(old(mem.nextId) + 1, userId, reply, replyAt)]
    ensures mem.nextId == old(mem.nextId) + 2
  {
    var past := mem.Search(userId, ContextSize, None);
    var contextTexts := ContextTexts(past);
    reply := AnswerAndStore(mem, userId, text, contextTexts, apiKey, model, userAt, replyAt);
  }

  /**
   * The rest of a turn once the context is known: generate the reply, then save the user's
   * message and the reply, the reply under the next id.
   */
  method AnswerAndStore(mem: SqliteMemory, userId: string, text: string, contextTexts: seq<string>,
                        apiKey: Option<string>, model: Model, userAt: int, replyAt: int)
    returns (reply: string)
    requires mem.Valid()
    modifies mem
    ensures mem.Valid()
    ensures reply == Reply(text, contextTexts, apiKey, model)
    ensures mem.rows == old(mem.rows) + [MessageRow(old(mem.nextId), userId, text, userAt)]
                                      + [ReplyRow(old(mem.nextId) + 1, userId, reply, replyAt)]
    ensures mem.nextId == old(mem.nextId) + 2
  {
    reply := GenerateReply(text, contextTexts, apiKey, model);
    assert unchanged(mem);
    StoreTurn(mem, userId, text, reply, userAt, replyAt);
  }

  /** The two saves of a turn: the user's message under the next id, then the reply under the one after. */
  method StoreTurn(mem: SqliteMemory, userId: string, text: string, reply: string, userAt: int, replyAt: int)
    requires mem.Valid()
    modifies mem
    ensures mem.Valid()
    ensures mem.rows == old(mem.rows) + [MessageRow(old(mem.nextId), userId, text, userAt)]
                                      + [ReplyRow(old(mem.nextId) + 1, userId, reply, replyAt)]
    ensures mem.nextId == old(mem.nextId) + 2
  {
    ghost var before := mem.rows;
    var userRowId := mem.Save(userId, text, Some(UserRole), userAt);
    ghost var afterMessage := mem.rows;
    assert afterMessage == before + [MessageRow(userRowId, userId, text, userAt)];
    var replyRowId := mem.Save(userId, reply, Some(AssistantRole), replyAt);
    assert mem.rows == afterMessage + [ReplyRow(replyRowId, userId, reply, replyAt)];
    assert userRowId == old(mem.nextId) && replyRowId == old(mem.nextId) + 1;
  }

  /** Every row read as context has an id below the one the turn's first save receives. */
  lemma ContextPredatesTurn(rows: seq<Row>, userId: string, nextId: int)
    requires forall i :: 0 <= i < |rows| ==> rows[i].id < nextId
    ensures forall x :: x in Select(rows, userId, ContextSize, None) ==> x.id < nextId
  {
    forall x | x in Select(rows, userId, ContextSize, None) ensures x.id < nextId {
      var i :| 0 <= i < |rows| && rows[i] == x;
    }
  }

  /** The context of a turn is at most five texts, newest first, all taken from the user's rows. */
  lemma ContextShape(rows: seq<Row>, userId: string)
    ensures var past := Select(rows, userId, ContextSize, None);
      && |ContextTexts(past)| <= ContextSize
      && (forall i :: 0 <= i < |past| ==> past[i] in rows && past[i].userId == userId
                                           && ContextTexts(past)[i] == past[i].text)
      && NewestFirst(past)
  {
    var past := Select(rows, userId, ContextSize, None);
    forall i | 0 <= i < |past| ensures past[i] in rows && past[i].userId == userId {
      assert past[i] in past;
    }
  }

  /** A turn for one user changes no other user's search result, for any `k` and query. */
  lemma TurnLeavesOtherUsers(rows: seq<Row>, firstId: int, userId: string, text: string, reply: string,
                             userAt: int, replyAt: int, other: string, k: nat, query: Option<string>)
    requires other != userId
    ensures Select(rows + [MessageRow(firstId, userId, text, userAt)] + [ReplyRow(firstId + 1, userId, reply, replyAt)],
                   other, k, query)
         == Select(rows, other, k, query)
  {
    var m, r := MessageRow(firstId, userId, text, userAt), ReplyRow(firstId + 1, userId, reply, replyAt);
    assert rows + [m] + [r] == rows + [m, r];
    OtherUsersUnaffected(rows, [m, r], userId, other, k, query);
  }

  /**
   * A first turn stamped at increasing times is read back by the next turn's context search
   * as exactly two rows: the reply, then the user's message.
   */
  lemma FirstTurnThenContext(rows: seq<Row>, firstId: int, userId: string, text: string, reply: string,
                             userAt: int, replyAt: int)
    requires forall x :: x in rows ==> x.userId != userId
    requires userAt < replyAt
    ensures Select(rows + [MessageRow(firstId, userId, text, userAt)] + [ReplyRow(firstId + 1, userId, reply, replyAt)],
                   userId, ContextSize, None)
         == [ReplyRow(firstId + 1, userId, reply, replyAt), MessageRow(firstId, userId, text, userAt)]
  {
    var m, r := MessageRow(firstId, userId, text, userAt), ReplyRow(firstId + 1, userId, reply, replyAt);
    assert rows + [m] + [r] == rows + [m, r];
    FirstTurnRecall(rows, userId, m, r);
  }

  /** The texts the second turn passes on as context are the first reply, then the first message. */
  lemma FirstTurnContextTexts(rows: seq<Row>, firstId: int, userId: string, text: string, reply: string,
                              userAt: int, replyAt: int)
    requires forall x :: x in rows ==> x.userId != userId
    requires userAt < replyAt
    ensures ContextTexts(Select(rows + [MessageRow(firstId, userId, text, userAt)]
                                     + [ReplyRow(firstId + 1, userId, reply, replyAt)],
                                userId, ContextSize, None))
         == [reply, text]
  {
    FirstTurnThenContext(rows, firstId, userId, text, reply, userAt, replyAt);
    var m, r := MessageRow(firstId, userId, text, userAt), ReplyRow(firstId + 1, userId, reply, replyAt);
    assert [r, m][1..] == [m] && [m][1..] == [];
    assert ContextTexts([m]) == [text];
  }
}
