/**
 * The socket handlers of the chat server as one object: the two in-memory
 * dictionaries (`users`, `activeChats`), the two tables they write, the
 * accounts table they join against, and an outbox of everything pushed to a
 * socket. Each handler runs as one step; the awaits inside a handler are not
 * interleaved with other handlers.
 */
module Server {
  import opened Domain
  import opened Presence
  import opened Store
  import opened Queries
  import opened Routing

  /** Which awaited query of the send handler throws, if any. The handler
      catches the error and only logs it, so a fault ends the handler where it
      happens and leaves the earlier steps in place. */
  datatype SendFault = NoFault | InsertFails | ReceiverUpsertFails | SenderUpsertFails

  class ChatServer {
    /** `users`: user id to the socket that registered it. */
    var users: seq<Binding>
    /** `activeChats`: user id to the peer whose chat that user has open. */
    var activeChats: map<UserId, UserId>
    /** The `messages` table. */
    var messages: seq<Message>
    /** The `user_conversations` table. */
    var conversations: seq<SummaryRow>
    /** The accounts table (id to email), read by the conversations join only. */
    const accounts: map<UserId, Email>
    /** Every event pushed to a socket, oldest first. */
    var outbox: seq<Emit>

    ghost predicate Valid()
      reads this
    {
      Ascending(users) && UniqueKeys(conversations)
    }

    /** A freshly started process over existing tables: nobody is online and
        no chat is open. */
    constructor (accounts: map<UserId, Email>, messages: seq<Message>, conversations: seq<SummaryRow>)
      requires UniqueKeys(conversations)
      ensures Valid()
      ensures users == [] && Registry(users) == map[] && activeChats == map[] && outbox == []
      ensures this.accounts == accounts && this.messages == messages && this.conversations == conversations
    {
      this.accounts := accounts;
      this.messages := messages;
      this.conversations := conversations;
      users := [];
      activeChats := map[];
      outbox := [];
    }

    /** "register": binds `userId` to the calling socket, replacing any
        earlier binding of that user. */
    method Register(socket: SocketId, userId: UserId)
      requires Valid()
      modifies this`users
      ensures Valid()
      ensures Registry(users) == Registry(old(users))[userId := socket]
      ensures users == Assign(old(users), userId, socket)
    {
      users := Assign(users, userId, socket);
    }

    /** "open_chat": records that `userId` now has the chat with `withUserId`
        open, replacing any earlier focus. */
    method OpenChat(userId: UserId, withUserId: UserId)
      requires Valid()
      modifies this`activeChats
      ensures Valid()
      ensures activeChats == old(activeChats)[userId := withUserId]
    {
      activeChats := activeChats[userId := withUserId];
    }

    /** "send_message": stores the message, raises the receiver's unread
        count, pushes the notices, then resets the sender's row. `sentAt` is
        the timestamp the database assigns to the new row. */
    method SendMessage(from: UserId, to: UserId, message: string, sentAt: Timestamp, fault: SendFault)
      requires Valid()
      modifies this`messages, this`conversations, this`outbox
      ensures Valid()
      ensures messages == if fault == InsertFails then old(messages)
                          else old(messages) + [Message(from, to, message, sentAt)]
      ensures conversations == match fault
        case InsertFails => old(conversations)
        case ReceiverUpsertFails => old(conversations)
        case SenderUpsertFails => Upsert(old(conversations), to, from, message, sentAt, Increment)
        case NoFault => AfterSend(old(conversations), from, to, message, sentAt)
      ensures outbox == old(outbox) +
        if fault == InsertFails || fault == ReceiverUpsertFails then []
        else Routed(Registry(users), activeChats, from, to, message, sentAt)
    {
      if fault == InsertFails {
        return;
      }
      messages := messages + [Message(from, to, message, sentAt)];
      if fault == ReceiverUpsertFails {
        return;
      }
      UpsertUnique(conversations, to, from, message, sentAt, Increment);
      conversations := Upsert(conversations, to, from, message, sentAt, Increment);

      var receiverSocket := Lookup(users, to);
      if receiverSocket.Some? {
        outbox := outbox + [Emit(receiverSocket.value, SidebarNotice(from, message))];
        if to in activeChats && activeChats[to] == from {
          outbox := outbox + [Emit(receiverSocket.value, ChatMessage(from, message, sentAt))];
        }
      }
      assert outbox == old(outbox) + ReceiverPushes(Registry(users), activeChats, from, to, message, sentAt);
      var senderSocket := Lookup(users, from);
      if senderSocket.Some? {
        outbox := outbox + [Emit(senderSocket.value, SendConfirmation(to, message, sentAt))];
      }
      assert outbox == old(outbox) + Routed(Registry(users), activeChats, from, to, message, sentAt);

      if fault == SenderUpsertFails {
        return;
      }
      UpsertUnique(conversations, from, to, message, sentAt, Reset);
      conversations := Upsert(conversations, from, to, message, sentAt, Reset);
    }

    /** "get_user_conversations": replies to the calling socket with the
        user's conversation list; a failed query replies nothing. */
    method GetUserConversations(socket: SocketId, userId: UserId, queryFails: bool)
      modifies this`outbox
      ensures outbox == old(outbox) +
        if queryFails then [] else [Emit(socket, ConversationList(UserConversations(conversations, accounts, userId)))]
    {
      if !queryFails {
        outbox := outbox + [Emit(socket, ConversationList(UserConversations(conversations, accounts, userId)))];
      }
    }

    /** "get_message_history": replies to the calling socket with the
        messages between the two users; a failed query replies nothing. */
    method GetMessageHistory(socket: SocketId, userId: UserId, otherUserId: UserId, queryFails: bool)
      modifies this`outbox
      ensures outbox == old(outbox) +
        if queryFails then [] else [Emit(socket, History(MessageHistory(messages, userId, otherUserId)))]
    {
      if !queryFails {
        outbox := outbox + [Emit(socket, History(MessageHistory(messages, userId, otherUserId)))];
      }
    }

    /** "disconnect": walks the users in enumeration order, deletes the first
        one bound to the closing socket together with its open chat, and
        stops. */
    method Disconnect(socket: SocketId)
      requires Valid()
      modifies this`users, this`activeChats
      ensures Valid()
      ensures users == Unbind(old(users), socket)
      ensures activeChats == match Released(old(users), socket)
        case None => old(activeChats)
        case Some(u) => old(activeChats) - {u}
      ensures match Released(old(users), socket)
        case None => Registry(users) == Registry(old(users))
        case Some(u) => u in Registry(old(users)) && Registry(old(users))[u] == socket && Registry(users) == Registry(old(users)) - {u}
    {
      UnbindRegistry(users, socket);
      for i := 0 to |users|
        invariant users == old(users) && activeChats == old(activeChats)
        invariant forall j :: 0 <= j < i ==> users[j].socket != socket
      {
        if users[i].socket == socket {
          var userId := users[i].user;
          users := users[..i] + users[i + 1..];
          activeChats := activeChats - {userId};
          break;
        }
      }
    }
  }
}
