/** The values the bot handles: incoming messages, generated questions and
    the outbound platform calls its handlers make, recorded as data. */
module Domain {
  import opened Wrappers

  /** The `chat.type` values of a chat that sends messages to the bot. */
  datatype ChatType = Private | Group | Supergroup

  /** An incoming text message: the kind of chat it came from and its text. */
  datatype Message = Message(chat: ChatType, text: string)

  /** One generated question: a JSON object whose values are all strings,
      with the keys `question`, `a`..`d`, `answer` and `explanation` expected. */
  type Question = map<string, string>

  type Quiz = seq<Question>

  /** The arguments of one `send_poll` call. The poll is always a
      non-anonymous quiz-type poll, so those two flags are not stored. */
  datatype Poll = Poll(question: string, options: seq<string>, correctOption: nat, explanation: string)

  /** One outbound call, in the order the handlers await them; every call
      targets the chat the update came from. */
  datatype Action =
    | Reply(text: string, markdown: bool)  // message.reply_text
    | SendMessage(text: string)            // bot.send_message
    | PinLastMessage                       // bot.pin_chat_message on the message just sent, silently
    | SendPoll(poll: Poll)                 // bot.send_poll
    | Sleep(seconds: nat)                  // asyncio.sleep

  /** The conversation state `handle_topic` can return: `ConversationHandler.END`. */
  datatype State = End

  /** What a handler does: its outbound calls, and the state it returns
      (`None` when it returns nothing, which keeps the current state). */
  datatype Outcome = Outcome(actions: seq<Action>, next: Option<State>)
}
