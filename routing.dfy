/**
 * What the handlers push to sockets. Every `io.to(id).emit(name, payload)`
 * and `socket.emit(name, payload)` of the server is an `Emit` appended to
 * the server's outbox; the transport itself is not modelled.
 */
module Routing {
  import opened Domain
  import opened Store
  import opened Queries

  datatype Event =
    /** "receive_on_Sidebar" {from, message}: a new message for the sidebar. */
    | SidebarNotice(from: UserId, message: string)
    /** "receive_message" {from, message, sent_at}: a message for the open chat. */
    | ChatMessage(from: UserId, message: string, sentAt: Timestamp)
    /** "message_sent" {to, message, sent_at}: the sender's own copy. */
    | SendConfirmation(to: UserId, message: string, sentAt: Timestamp)
    /** "user_conversations": the reply to get_user_conversations. */
    | ConversationList(conversations: seq<ConversationView>)
    /** "message_history": the reply to get_message_history. */
    | History(messages: seq<Message>)

  datatype Emit = Emit(socket: SocketId, event: Event)

  /** The pushes of a successful send from `from` to `to`, given the presence
      dictionary and the open chats at the time: first the receiver's, then
      the sender's. */
  function Routed(presence: map<UserId, SocketId>, activeChats: map<UserId, UserId>,
                  from: UserId, to: UserId, text: string, ts: Timestamp): seq<Emit>
  {
    ReceiverPushes(presence, activeChats, from, to, text, ts) + SenderPushes(presence, to, from, text, ts)
  }

  /** What the receiver's socket gets: the sidebar notice when `to` is
      online, then the message itself when its open chat is with `from`. */
  function ReceiverPushes(presence: map<UserId, SocketId>, activeChats: map<UserId, UserId>,
                          from: UserId, to: UserId, text: string, ts: Timestamp): seq<Emit>
  {
    if to !in presence then []
    else if to in activeChats && activeChats[to] == from then
      [Emit(presence[to], SidebarNotice(from, text)), Emit(presence[to], ChatMessage(from, text, ts))]
    else [Emit(presence[to], SidebarNotice(from, text))]
  }

  /** What the sender's socket gets: its confirmation, when `from` is online. */
  function SenderPushes(presence: map<UserId, SocketId>, to: UserId, from: UserId, text: string, ts: Timestamp): seq<Emit>
  {
    if from in presence then [Emit(presence[from], SendConfirmation(to, text, ts))] else []
  }

  /** Which events a send pushes and to whom. The receiver, when online,
      always gets the sidebar notice; it gets the message itself exactly when
      its open chat is with `from`; the sender, when online, gets its
      confirmation. Nothing else is pushed. */
  lemma RoutedEvents(presence: map<UserId, SocketId>, activeChats: map<UserId, UserId>,
                     from: UserId, to: UserId, text: string, ts: Timestamp)
    ensures var r := Routed(presence, activeChats, from, to, text, ts);
      (exists i :: 0 <= i < |r| && r[i].event.SidebarNotice?) <==> to in presence
    ensures var r := Routed(presence, activeChats, from, to, text, ts);
      (exists i :: 0 <= i < |r| && r[i].event.ChatMessage?) <==>
        to in presence && to in activeChats && activeChats[to] == from
    ensures var r := Routed(presence, activeChats, from, to, text, ts);
      (exists i :: 0 <= i < |r| && r[i].event.SendConfirmation?) <==> from in presence
    ensures var r := Routed(presence, activeChats, from, to, text, ts);
      forall i :: 0 <= i < |r| ==>
        (r[i].event.SidebarNotice? && to in presence && r[i] == Emit(presence[to], SidebarNotice(from, text))) ||
        (r[i].event.ChatMessage? && to in presence && r[i] == Emit(presence[to], ChatMessage(from, text, ts))) ||
        (r[i].event.SendConfirmation? && from in presence && r[i] == Emit(presence[from], SendConfirmation(to, text, ts)))
  {
    var r := Routed(presence, activeChats, from, to, text, ts);
    assert to in presence ==> r[0].event.SidebarNotice?;
    assert to in presence && to in activeChats && activeChats[to] == from ==> r[1].event.ChatMessage?;
    assert from in presence ==> r[|r| - 1].event.SendConfirmation?;
  }

  /** The order of the pushes: the sidebar notice comes before the message
      itself, the sender's confirmation comes after every push to the
      receiver, and no event is pushed twice. */
  lemma RoutedOrder(presence: map<UserId, SocketId>, activeChats: map<UserId, UserId>,
                    from: UserId, to: UserId, text: string, ts: Timestamp)
    ensures var r := Routed(presence, activeChats, from, to, text, ts);
      forall i, j :: 0 <= i < |r| && 0 <= j < |r| && r[i].event.SidebarNotice? && r[j].event.ChatMessage? ==> i < j
    ensures var r := Routed(presence, activeChats, from, to, text, ts);
      forall i, j :: 0 <= i < |r| && 0 <= j < |r| && !r[i].event.SendConfirmation? && r[j].event.SendConfirmation? ==> i < j
    ensures var r := Routed(presence, activeChats, from, to, text, ts);
      forall i, j :: 0 <= i < j < |r| ==> r[i].event != r[j].event
  {
    var receiver := ReceiverPushes(presence, activeChats, from, to, text, ts);
    var r := Routed(presence, activeChats, from, to, text, ts);
    assert forall i :: 0 <= i < |r| ==> (r[i].event.SendConfirmation? <==> i >= |receiver|);
  }
}
