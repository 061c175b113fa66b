/** Panel users, and the keys under which the node indexes them. */
module Users {
  datatype UserInfo = UserInfo(id: int, uuid: string, speedLimit: int, deviceLimit: int)

  type UserMap = map<string, UserInfo>

  function UserTag(tag: string, uuid: string): string { tag + ['|'] + uuid }

  lemma UserTagInjective(tag: string, uuid: string, uuid': string)
    ensures UserTag(tag, uuid) == UserTag(tag, uuid') ==> uuid == uuid'
  {
    assert UserTag(tag, uuid)[|tag| + 1..] == uuid;
    assert UserTag(tag, uuid')[|tag| + 1..] == uuid';
  }

  predicate Distinct(users: seq<UserInfo>) {
    forall i, j | 0 <= i < j < |users| :: users[i].uuid != users[j].uuid
  }

  function Uuids(users: seq<UserInfo>): set<string> {
    set i | 0 <= i < |users| :: users[i].uuid
  }

  function Tags(tag: string, users: seq<UserInfo>): set<string> {
    set i | 0 <= i < |users| :: UserTag(tag, users[i].uuid)
  }

  function Ids(users: seq<UserInfo>): set<int> {
    set i | 0 <= i < |users| :: users[i].id
  }

  /** A list of users as a map; of users with the same uuid the last one counts. */
  function MapOf(users: seq<UserInfo>): UserMap {
    Override(map[], users)
  }

  function Override(m: UserMap, users: seq<UserInfo>): UserMap
  {
    if users == [] then m
    else
      var last := users[|users| - 1];
      Override(m, users[..|users| - 1])[last.uuid := last]
  }
}
