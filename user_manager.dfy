/**
 * The chat server's table of connected users, keyed by session index, and its
 * broadcast through the host's send handler. The lookups and table updates
 * are functions on the map; class `UserManager` holds the map and updates it
 * in place. The handler's calls are recorded as a log.
 */
module Users {
  import opened NetDefine

  /** A connected user: the session index and the nickname. */
  datatype UserData = UserData(socketIndex: int, userName: string)

  /** One call of SendPacketCallback: the target session and the packet handed over. */
  datatype SendCall = SendCall(socketIndex: int, msg: Nullable<seq<byte>>)

  type UserTable = map<int, UserData>

  /**
   * AddUser: an index already present is refused and the table is kept;
   * otherwise the index maps to a new user with that nickname and nothing
   * else changes.
   */
  function AddUserState(users: UserTable, index: int, name: string): (r: (bool, UserTable))
    ensures r.0 <==> index !in users
    ensures !r.0 ==> r.1 == users
    ensures r.0 ==> index in r.1 && r.1[index] == UserData(index, name)
    ensures r.0 ==> r.1.Keys == users.Keys + {index} && forall k :: k in users ==> r.1[k] == users[k]
  {
    if index in users then (false, users)
    else (true, users[index := UserData(index, name)])
  }

  /** RemoveUser: the index is absent afterwards and every other entry stays; an absent index changes nothing. */
  function RemoveUserState(users: UserTable, index: int): (r: UserTable)
    ensures index !in r && r.Keys == users.Keys - {index}
    ensures forall k :: k in r ==> r[k] == users[k]
    ensures index !in users ==> r == users
  {
    users - {index}
  }

  /** GetNickname: the stored nickname, or the empty string for an index nobody holds. */
  function NicknameOf(users: UserTable, index: int): (r: string)
    ensures index !in users ==> r == ""
    ensures index in users ==> r == users[index].userName
  {
    if index !in users then "" else users[index].userName
  }

  /** The handler calls of one broadcast over the keys in enumeration order: one per key, same packet. */
  function SendAllCalls(order: seq<int>, msg: Nullable<seq<byte>>): (r: seq<SendCall>)
    ensures |r| == |order| && forall i :: 0 <= i < |order| ==> r[i] == SendCall(order[i], msg)
  {
    if order == [] then [] else [SendCall(order[0], msg)] + SendAllCalls(order[1..], msg)
  }

  /** How many calls of the log go to `index`. */
  function CallsTo(calls: seq<SendCall>, index: int): nat {
    if calls == [] then 0 else (if calls[0].socketIndex == index then 1 else 0) + CallsTo(calls[1..], index)
  }

  predicate Distinct(xs: seq<int>) {
    forall i, j :: 0 <= i < j < |xs| ==> xs[i] != xs[j]
  }

  /** `order` is the dictionary's enumeration: every key exactly once. */
  ghost predicate Enumerates(order: seq<int>, users: UserTable) {
    (forall k :: k in users <==> k in order) && Distinct(order)
  }

  // ---------------------------------------------------------- properties

  /** A successful AddUser is seen by GetNickname; other indices keep their nicknames. */
  lemma AddThenGet(users: UserTable, index: int, name: string, other: int)
    requires index !in users && other != index
    ensures NicknameOf(AddUserState(users, index, name).1, index) == name
    ensures NicknameOf(AddUserState(users, index, name).1, other) == NicknameOf(users, other)
  {
  }

  /** Adding a new user and removing it again gives back the table. */
  lemma AddRemoveRoundTrip(users: UserTable, index: int, name: string)
    requires index !in users
    ensures RemoveUserState(AddUserState(users, index, name).1, index) == users
  {
  }

  /** After RemoveUser the index reads as nobody's, and it can be taken again. */
  lemma RemoveFreesIndex(users: UserTable, index: int, name: string)
    ensures NicknameOf(RemoveUserState(users, index), index) == ""
    ensures AddUserState(RemoveUserState(users, index), index, name).0
  {
  }

  /** The calls of a distinct key list go once to each listed key and never elsewhere. */
  lemma {:induction false} CallsPerKey(order: seq<int>, msg: Nullable<seq<byte>>, k: int)
    requires Distinct(order)
    ensures CallsTo(SendAllCalls(order, msg), k) == if k in order then 1 else 0
    decreases |order|
  {
    if order != [] {
      var rest := order[1..];
      assert Distinct(rest) by {
        forall i, j | 0 <= i < j < |rest| ensures rest[i] != rest[j] {
          assert rest[i] == order[i + 1] && rest[j] == order[j + 1];
        }
      }
      CallsPerKey(rest, msg, k);
      var calls := SendAllCalls(order, msg);
      assert calls[1..] == SendAllCalls(rest, msg);
      if order[0] == k {
        assert k !in rest by {
          forall i | 0 <= i < |rest| ensures rest[i] != k {
            assert rest[i] == order[i + 1];
          }
        }
      }
      assert k in order <==> k == order[0] || k in rest;
    }
  }

  /**
   * A broadcast calls the handler exactly once for every registered index,
   * never for anyone else, and always with the same packet.
   */
  lemma BroadcastOncePerUser(users: UserTable, order: seq<int>, msg: Nullable<seq<byte>>)
    requires Enumerates(order, users)
    ensures forall k :: CallsTo(SendAllCalls(order, msg), k) == if k in users then 1 else 0
    ensures forall c :: c in SendAllCalls(order, msg) ==> c.msg == msg
  {
    forall k ensures CallsTo(SendAllCalls(order, msg), k) == if k in users then 1 else 0 {
      CallsPerKey(order, msg, k);
    }
  }

  // -------------------------------------------------------------- the class

  class UserManager {
    var userList: UserTable
    /** SendPacketCallback is attached. */
    var sendPacketCallback: bool
    var calls: seq<SendCall>

    constructor ()
      ensures userList == map[] && !sendPacketCallback && calls == []
    {
      userList := map[];
      sendPacketCallback := false;
      calls := [];
    }

    /** The SendPacketCallback property, set by the host. */
    method SetSendPacketCallback(attached: bool)
      modifies this
      ensures sendPacketCallback == attached && userList == old(userList) && calls == old(calls)
    {
      sendPacketCallback := attached;
    }

    function IsConnectedUser(socketIndex: int): (r: bool)
      reads this
      ensures r <==> socketIndex in userList
    {
      socketIndex in userList
    }

    method AddUser(socketIndex: int, nickName: string) returns (ok: bool)
      modifies this
      ensures (ok, userList) == AddUserState(old(userList), socketIndex, nickName)
      ensures sendPacketCallback == old(sendPacketCallback) && calls == old(calls)
    {
      if IsConnectedUser(socketIndex) {
        return false;
      }
      userList := userList[socketIndex := UserData(socketIndex, nickName)];
      return true;
    }

    method RemoveUser(socketIndex: int)
      modifies this
      ensures userList == RemoveUserState(old(userList), socketIndex)
      ensures sendPacketCallback == old(sendPacketCallback) && calls == old(calls)
    {
      userList := userList - {socketIndex};
    }

    function GetNickname(socketIndex: int): (r: string)
      reads this
      ensures r == NicknameOf(userList, socketIndex)
    {
      if !IsConnectedUser(socketIndex) then "" else userList[socketIndex].userName
    }

    /** SendPacketAll, with `order` the order in which the dictionary enumerates its keys. */
    method SendPacketAll(order: seq<int>, msg: Nullable<seq<byte>>)
      requires Enumerates(order, userList)
      modifies this
      ensures calls == old(calls) + (if old(sendPacketCallback) then SendAllCalls(order, msg) else [])
      ensures userList == old(userList) && sendPacketCallback == old(sendPacketCallback)
    {
      if !sendPacketCallback {
        return;
      }
      ghost var all := SendAllCalls(order, msg);
      var i := 0;
      while i < |order|
        invariant 0 <= i <= |order|
        invariant calls == old(calls) + all[..i]
        invariant userList == old(userList) && sendPacketCallback == old(sendPacketCallback)
      {
        assert all[..i + 1] == all[..i] + [SendCall(order[i], msg)];
        calls := calls + [SendCall(order[i], msg)];
        i := i + 1;
      }
      assert all[..|order|] == all;
    }
  }
}
