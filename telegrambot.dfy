/**
 * The subscriber list behind the bot's `/subscribe` and `/unsubscribe` commands: a list of chat
 * ids, read, updated and written back by each command, which answers with a reply string.
 */
module Subscribers {
  import Js

  const AlreadySubscribed: string := "Already subscribed!"
  const Subscribed: string := "Subscribed!"
  const Unsubscribed: string := "Unsubscribed!"

  /** The list `/subscribe` leaves: unchanged if the id is present, else the id appended. */
  function Subscribe(users: seq<int>, chatId: int): (r: seq<int>)
    ensures chatId in r
    ensures chatId in users ==> r == users
    ensures chatId !in users ==> r == users + [chatId]
  {
    if chatId in users then users else users + [chatId]
  }

  /** The list `/unsubscribe` leaves: every occurrence of the id filtered out. */
  function Unsubscribe(users: seq<int>, chatId: int): (r: seq<int>)
    ensures chatId !in r
    ensures forall u :: u in r <==> u in users && u != chatId
  {
    Js.FilterOut(users, chatId)
  }

  predicate NoDuplicates(users: seq<int>) {
    forall i, j :: 0 <= i < j < |users| ==> users[i] != users[j]
  }

  /** Subscribing twice is subscribing once. */
  lemma SubscribeIdempotent(users: seq<int>, chatId: int)
    ensures Subscribe(Subscribe(users, chatId), chatId) == Subscribe(users, chatId)
  {
  }

  /** Subscribing never introduces a duplicate. */
  lemma SubscribeKeepsNoDuplicates(users: seq<int>, chatId: int)
    requires NoDuplicates(users)
    ensures NoDuplicates(Subscribe(users, chatId))
  {
  }

  /** Unsubscribing never introduces a duplicate. */
  lemma {:induction false} UnsubscribeKeepsNoDuplicates(users: seq<int>, chatId: int)
    requires NoDuplicates(users)
    ensures NoDuplicates(Unsubscribe(users, chatId))
    decreases |users|
  {
    if users != [] {
      var rest := users[1..];
      assert NoDuplicates(rest) by {
        forall i, j | 0 <= i < j < |rest| ensures rest[i] != rest[j] {
          assert rest[i] == users[i + 1] && rest[j] == users[j + 1];
        }
      }
      UnsubscribeKeepsNoDuplicates(rest, chatId);
      assert users[0] !in rest by {
        forall j | 0 <= j < |rest| ensures rest[j] != users[0] {
          assert rest[j] == users[j + 1];
        }
      }
    }
  }

  /** The other ids keep their order: unsubscribing distributes over concatenation. */
  lemma UnsubscribeKeepsOrder(a: seq<int>, b: seq<int>, chatId: int)
    ensures Unsubscribe(a + b, chatId) == Unsubscribe(a, chatId) + Unsubscribe(b, chatId)
  {
    Js.FilterOutAppend(a, b, chatId);
  }

  /** An id that is not in the list is removed again by unsubscribing right after subscribing. */
  lemma SubscribeThenUnsubscribe(users: seq<int>, chatId: int)
    requires chatId !in users
    ensures Unsubscribe(Subscribe(users, chatId), chatId) == users
  {
    Js.FilterOutAppend(users, [chatId], chatId);
    Js.FilterOutAbsent(users, chatId);
    assert Js.FilterOut([chatId], chatId) == [];
  }

  /** The persisted list, as the commands see it. */
  class SubscriberStore {
    var users: seq<int>

    constructor(users: seq<int>)
      ensures this.users == users
    {
      this.users := users;
    }

    /** `/subscribe`: a present id leaves the list alone, an absent one is appended. */
    method HandleSubscribe(chatId: int) returns (reply: string)
      modifies this
      ensures users == Subscribe(old(users), chatId)
      ensures reply == (if chatId in old(users) then AlreadySubscribed else Subscribed)
      ensures NoDuplicates(old(users)) ==> NoDuplicates(users)
    {
      var allUsers := users;
      if chatId in allUsers {
        reply := AlreadySubscribed;
        return;
      }
      users := allUsers + [chatId];
      reply := Subscribed;
      if NoDuplicates(allUsers) {
        SubscribeKeepsNoDuplicates(allUsers, chatId);
      }
    }

    /** `/unsubscribe`: the id is filtered out and the reply is always the same. */
    method HandleUnsubscribe(chatId: int) returns (reply: string)
      modifies this
      ensures users == Unsubscribe(old(users), chatId)
      ensures reply == Unsubscribed
      ensures NoDuplicates(old(users)) ==> NoDuplicates(users)
    {
      var allUsers := users;
      users := Js.FilterOut(allUsers, chatId);
      reply := Unsubscribed;
      if NoDuplicates(allUsers) {
        UnsubscribeKeepsNoDuplicates(allUsers, chatId);
      }
    }
  }
}
