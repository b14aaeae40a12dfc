/**
 * server/Services/UserService.cs: the allow-list of user names and the lazily
 * created user record, which always comes with its own bucket mount.
 */
module Users {
  import opened Outcomes
  import opened Utils
  import opened Entities
  import opened Platform
  import opened Mounts

  class UserService {
    /** `EnvConfig.KnownUsers`, read once. */
    const knownUsers: seq<string>
    const mountService: MountService

    constructor (knownUsers: seq<string>, mountService: MountService)
      ensures this.knownUsers == knownUsers && this.mountService == mountService
    {
      this.knownUsers := knownUsers;
      this.mountService := mountService;
    }

    /** IsValid: the name is on the allow-list, compared exactly (case matters). */
    function IsValid(username: string): (b: bool)
      ensures b <==> exists i :: 0 <= i < |knownUsers| && knownUsers[i] == username
    {
      username in knownUsers
    }

    /** GetUser never answers null. A stored user is returned and nothing
        changes; an unknown name gets a new `Open` user, keyed by the name, with
        a fresh `Bucket` mount of its own. Asking again returns the same user. */
    method GetUser(h: Host, username: string, now: Ticks, newId: Guid) returns (h': Host, user: DbUser)
      ensures user.id == username && FindUser(h'.db, username) == Some(user)
      ensures h'.pool == h.pool
      ensures FindUser(h.db, username).Some? ==> h' == h && user == FindUser(h.db, username).value
      ensures FindUser(h.db, username).None? ==>
        && user == DbUser(username, username, newId, Open, "")
        && FindMount(h'.db, newId) == Some(NewMount(newId, Bucket, now))
        && h'.disk == CreateDirectory(h.disk, NewMount(newId, Bucket, now).path)
        && (forall k :: k != Key(UserKind, username) && k != Key(MountKind, newId) ==>
              (k in h'.db <==> k in h.db) && (k in h.db ==> h'.db[k] == h.db[k]))
    {
      var found := FindUser(h.db, username);
      if found.Some? {
        return h, found.value;
      }
      var mount;
      h', mount := mountService.CreateNewMount(h, Bucket, now, newId);
      user := DbUser(username, username, mount.id, Open, "");
      h' := h'.(db := PutUser(h'.db, user));
    }

    /** SaveUser: an upsert of the user record; no other record changes. */
    method SaveUser(h: Host, user: DbUser) returns (h': Host)
      ensures h' == h.(db := PutUser(h.db, user))
      ensures FindUser(h'.db, user.id) == Some(user)
      ensures forall k :: k != Key(UserKind, user.id) ==>
        (k in h'.db <==> k in h.db) && (k in h.db ==> h'.db[k] == h.db[k])
      ensures h'.disk == h.disk && h'.pool == h.pool
    {
      h' := h.(db := PutUser(h.db, user));
    }
  }
}
