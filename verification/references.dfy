/**
 * The identifier reference resolver (`convertIds`): derived read-only properties that
 * turn a stored identifier, or list of identifiers, into entities looked up in the
 * session's contacts and chats directories.
 *
 * Declaring the properties is a pure function from the decorator's arguments to a
 * table from property name to accessor; reading a property dispatches on the
 * accessor's kind and looks the stored identifiers up afresh on every read.
 */
module References {
  import opened Wrappers

  /** What a derived property resolves: one contact, a list of contacts, or one conversation. */
  datatype Kind = User | Users | Chat

  /** A derived property: its kind, its name, and the stored field holding the identifier(s). */
  datatype Accessor = Accessor(kind: Kind, property: string, idField: string)

  // ---------------------------------------------------------------------------
  // Name derivation

  /** `@convertIds(user=[f])` and friends: the property and id field derived from `base`. */
  function Named(kind: Kind, base: string): Accessor {
    match kind
    case User => Accessor(User, base, base + "Id")
    case Users => Accessor(Users, base + "s", base + "Ids")
    case Chat => Accessor(Chat, base, base + "Id")
  }

  /** `@convertIds("user", "users", "chat")`: the conventional accessor of a shorthand token; other tokens are ignored. */
  function Shorthand(token: string): (r: Option<Accessor>)
    ensures r.Some? <==> token == "user" || token == "users" || token == "chat"
    ensures r.Some? ==> r.value.property == token
    ensures r.Some? ==> (r.value.kind == Users <==> token == "users")
  {
    if token == "user" then Some(Accessor(User, "user", "userId"))
    else if token == "users" then Some(Accessor(Users, "users", "userIds"))
    else if token == "chat" then Some(Accessor(Chat, "chat", "chatId"))
    else None
  }

  /**
   * The three shorthand tokens are the named declarations of `user` (single and list)
   * and `chat`; every other token declares nothing.
   */
  lemma ShorthandIsNamed(token: string)
    ensures token == "user" ==> Shorthand(token) == Some(Named(User, "user"))
    ensures token == "users" ==> Shorthand(token) == Some(Named(Users, "user"))
    ensures token == "chat" ==> Shorthand(token) == Some(Named(Chat, "chat"))
    ensures Shorthand(token).None? <==> token != "user" && token != "users" && token != "chat"
  {
    assert "user" + "s" == "users";
    assert "user" + "Ids" == "userIds";
    assert "user" + "Id" == "userId";
    assert "chat" + "Id" == "chatId";
  }

  /** The accessors declared by the shorthand tokens, in order, unrecognised tokens dropped. */
  function Shorthands(types: seq<string>): (r: seq<Accessor>)
    ensures |r| <= |types|
    ensures forall a :: a in r <==> exists t :: t in types && Shorthand(t) == Some(a)
  {
    if |types| == 0 then []
    else
      var rest := Shorthands(types[1..]);
      assert forall t :: t in types <==> t == types[0] || t in types[1..];
      match Shorthand(types[0])
      case Some(a) => [a] + rest
      case None => rest
  }

  /**
   * The accessors that the loop over one keyword's base names attaches, one per name:
   * the first name's, then the rest's.
   */
  function NamedAll(kind: Kind, bases: seq<string>): (r: seq<Accessor>)
    ensures |r| == |bases|
    ensures forall i :: 0 <= i < |bases| ==> r[i] == Named(kind, bases[i])
    decreases |bases|
  {
    if |bases| == 0 then []
    else [Named(kind, bases[0])] + NamedAll(kind, bases[1..])
  }

  /** Every accessor the decorator attaches, in the order it attaches them. */
  function Declarations(types: seq<string>, user: seq<string>, users: seq<string>, chat: seq<string>): seq<Accessor> {
    Shorthands(types) + NamedAll(User, user) + NamedAll(Users, users) + NamedAll(Chat, chat)
  }

  /** The last accessor in `decls` that defines `property`, if any. */
  function LastFor(decls: seq<Accessor>, property: string): Option<Accessor>
    decreases |decls|
  {
    if |decls| == 0 then None
    else if decls[|decls| - 1].property == property then Some(decls[|decls| - 1])
    else LastFor(decls[..|decls| - 1], property)
  }

  /** Installs each accessor on the class in turn under its property name, replacing any earlier one. */
  function Attach(table: map<string, Accessor>, decls: seq<Accessor>): map<string, Accessor>
    decreases |decls|
  {
    if |decls| == 0 then table
    else Attach(table[decls[0].property := decls[0]], decls[1..])
  }

  /**
   * Attaching in order leaves each property defined by the last accessor that names it,
   * and every other property as it was.
   */
  lemma {:induction false} AttachKeepsLast(table: map<string, Accessor>, decls: seq<Accessor>, p: string)
    ensures p in Attach(table, decls) <==> LastFor(decls, p).Some? || p in table
    ensures LastFor(decls, p).Some? ==> Attach(table, decls)[p] == LastFor(decls, p).value
    ensures LastFor(decls, p).None? && p in table ==> Attach(table, decls)[p] == table[p]
    decreases |decls|
  {
    if |decls| > 0 {
      var t' := table[decls[0].property := decls[0]];
      AttachKeepsLast(t', decls[1..], p);
      LastForCons(decls, p);
    }
  }

  /** `LastFor` over a non-empty list: the tail's answer, else the head when it matches. */
  lemma {:induction false} LastForCons(decls: seq<Accessor>, p: string)
    requires |decls| > 0
    ensures LastFor(decls, p) ==
      if LastFor(decls[1..], p).Some? then LastFor(decls[1..], p)
      else if decls[0].property == p then Some(decls[0])
      else None
    decreases |decls|
  {
    var n := |decls|;
    if n > 1 && decls[n - 1].property != p {
      assert decls[..n - 1][1..] == decls[1..][..n - 2];
      LastForCons(decls[..n - 1], p);
      assert decls[..n - 1][0] == decls[0];
    }
  }

  /** The class's table of derived properties after `@convertIds(*types, user=.., users=.., chat=..)`. */
  function ConvertIds(types: seq<string>, user: seq<string>, users: seq<string>, chat: seq<string>): (r: map<string, Accessor>)
    ensures forall p :: p in r <==> LastFor(Declarations(types, user, users, chat), p).Some?
    ensures forall p :: p in r ==> r[p] == LastFor(Declarations(types, user, users, chat), p).value
  {
    var decls := Declarations(types, user, users, chat);
    forall p
      ensures p in Attach(map[], decls) <==> LastFor(decls, p).Some?
      ensures LastFor(decls, p).Some? ==> Attach(map[], decls)[p] == LastFor(decls, p).value
    {
      AttachKeepsLast(map[], decls, p);
    }
    Attach(map[], decls)
  }

  /** An accessor with no later one of the same property name is the one `LastFor` finds. */
  lemma {:induction false} LastForFinds(decls: seq<Accessor>, i: nat)
    requires i < |decls|
    requires forall j :: i < j < |decls| ==> decls[j].property != decls[i].property
    ensures LastFor(decls, decls[i].property) == Some(decls[i])
    decreases |decls|
  {
    if i < |decls| - 1 {
      var init := decls[..|decls| - 1];
      assert init[i] == decls[i];
      assert forall j :: i < j < |init| ==> init[j] == decls[j];
      LastForFinds(init, i);
    }
  }

  /**
   * A named declaration that nothing declared after it overrides is reachable under its
   * derived property name, reading its derived id field.
   */
  lemma NamedUserDeclared(types: seq<string>, user: seq<string>, users: seq<string>, chat: seq<string>, i: nat)
    requires i < |user|
    requires forall j :: i < j < |user| ==> user[j] != user[i]
    requires forall j :: 0 <= j < |users| ==> users[j] + "s" != user[i]
    requires forall j :: 0 <= j < |chat| ==> chat[j] != user[i]
    ensures user[i] in ConvertIds(types, user, users, chat)
    ensures ConvertIds(types, user, users, chat)[user[i]] == Accessor(User, user[i], user[i] + "Id")
  {
    var decls := Declarations(types, user, users, chat);
    var sh := Shorthands(types);
    var k := |sh| + i;
    assert decls[k] == Named(User, user[i]);
    forall j | k < j < |decls|
      ensures decls[j].property != decls[k].property
    {
      if j < |sh| + |user| {
        assert decls[j] == Named(User, user[j - |sh|]);
      } else if j < |sh| + |user| + |users| {
        assert decls[j] == Named(Users, users[j - |sh| - |user|]);
      } else {
        assert decls[j] == Named(Chat, chat[j - |sh| - |user| - |users|]);
      }
    }
    LastForFinds(decls, k);
  }

  /**
   * A list declaration that nothing declared after it overrides is reachable under its
   * pluralised property name, reading its pluralised id field.
   */
  lemma NamedUsersDeclared(types: seq<string>, user: seq<string>, users: seq<string>, chat: seq<string>, i: nat)
    requires i < |users|
    requires forall j :: i < j < |users| ==> users[j] != users[i]
    requires forall j :: 0 <= j < |chat| ==> chat[j] != users[i] + "s"
    ensures users[i] + "s" in ConvertIds(types, user, users, chat)
    ensures ConvertIds(types, user, users, chat)[users[i] + "s"] == Accessor(Users, users[i] + "s", users[i] + "Ids")
  {
    var decls := Declarations(types, user, users, chat);
    var n := |Shorthands(types)| + |user|;
    var k := n + i;
    assert decls[k] == Named(Users, users[i]);
    forall j | k < j < |decls|
      ensures decls[j].property != decls[k].property
    {
      if j < n + |users| {
        assert decls[j] == Named(Users, users[j - n]);
        PluralInjective(users[j - n], users[i]);
      } else {
        assert decls[j] == Named(Chat, chat[j - n - |users|]);
      }
    }
    LastForFinds(decls, k);
  }

  /** Distinct base names have distinct plurals. */
  lemma PluralInjective(a: string, b: string)
    ensures a + "s" == b + "s" ==> a == b
  {
    if a + "s" == b + "s" {
      assert a == (a + "s")[..|a|];
      assert b == (b + "s")[..|b|];
    }
  }

  /**
   * A conversation declaration that no later one overrides is reachable under its name,
   * reading its derived id field.
   */
  lemma NamedChatDeclared(types: seq<string>, user: seq<string>, users: seq<string>, chat: seq<string>, i: nat)
    requires i < |chat|
    requires forall j :: i < j < |chat| ==> chat[j] != chat[i]
    ensures chat[i] in ConvertIds(types, user, users, chat)
    ensures ConvertIds(types, user, users, chat)[chat[i]] == Accessor(Chat, chat[i], chat[i] + "Id")
  {
    var decls := Declarations(types, user, users, chat);
    var n := |Shorthands(types)| + |user| + |users|;
    var k := n + i;
    assert decls[k] == Named(Chat, chat[i]);
    forall j | k < j < |decls|
      ensures decls[j].property != decls[k].property
    {
      assert decls[j] == Named(Chat, chat[j - n]);
    }
    LastForFinds(decls, k);
  }

  /** A token that is not a shorthand declares nothing. */
  lemma {:induction false} IgnoredTokens(types: seq<string>, t: string)
    requires Shorthand(t).None?
    ensures Shorthands(types + [t]) == Shorthands(types)
    decreases |types|
  {
    if |types| == 0 {
      assert [t][1..] == [];
    } else {
      assert (types + [t])[1..] == types[1..] + [t];
      IgnoredTokens(types[1..], t);
    }
  }

  // ---------------------------------------------------------------------------
  // Resolution

  /** The two identifier-keyed directories the owning session exposes. */
  datatype Session<E> = Session(contacts: map<string, E>, chats: map<string, E>)

  /** What an entity's identifier field may hold. */
  datatype FieldValue =
    | IdValue(id: string)
    | IdListValue(ids: seq<string>)
    | NoneValue

  datatype ResolveError =
    | NoAttribute(name: string)      // the entity has no such field or property
    | LookupMiss(key: FieldValue)    // the directory has no entry for the key
    | NotIterable(field: string)     // a list accessor read a field holding `None`

  /** The value of a derived property: one entity, or the entities of an identifier list. */
  datatype Resolved<E> = One(entity: E) | Many(entities: seq<E>)

  /** `directory[key]`: only a stored identifier can be a key, and an absent one is a miss. */
  function Lookup<E>(directory: map<string, E>, key: FieldValue): (r: Result<E, ResolveError>)
    ensures r.Success? <==> key.IdValue? && key.id in directory
    ensures r.Success? ==> r.value == directory[key.id]
    ensures r.Failure? ==> r.error == LookupMiss(key)
  {
    if key.IdValue? && key.id in directory then Success(directory[key.id]) else Failure(LookupMiss(key))
  }

  /** `userObj`: the contact named by the field `idField`. */
  function UserObj<E>(s: Session<E>, fields: map<string, FieldValue>, idField: string): (r: Result<E, ResolveError>)
    ensures idField !in fields ==> r == Failure(NoAttribute(idField))
    ensures r.Success? <==> idField in fields && fields[idField].IdValue? && fields[idField].id in s.contacts
    ensures r.Success? ==> r.value == s.contacts[fields[idField].id]
  {
    if idField !in fields then Failure(NoAttribute(idField))
    else Lookup(s.contacts, fields[idField])
  }

  /** `chatObj`: the conversation named by the field `idField`. */
  function ChatObj<E>(s: Session<E>, fields: map<string, FieldValue>, idField: string): (r: Result<E, ResolveError>)
    ensures idField !in fields ==> r == Failure(NoAttribute(idField))
    ensures r.Success? <==> idField in fields && fields[idField].IdValue? && fields[idField].id in s.chats
    ensures r.Success? ==> r.value == s.chats[fields[idField].id]
  {
    if idField !in fields then Failure(NoAttribute(idField))
    else Lookup(s.chats, fields[idField])
  }

  /** What `for id in value` iterates over: a list's items, or a string's characters. */
  function Iterate(v: FieldValue): Option<seq<string>> {
    match v
    case IdListValue(ids) => Some(ids)
    case IdValue(str) => Some(seq(|str|, i requires 0 <= i < |str| => [str[i]]))
    case NoneValue => None
  }

  /** Every identifier looked up in order; the first missing one stops the iteration. */
  function LookupAll<E>(directory: map<string, E>, ids: seq<string>): (r: Result<seq<E>, ResolveError>)
    ensures r.Success? <==> forall i :: 0 <= i < |ids| ==> ids[i] in directory
    ensures r.Success? ==> |r.value| == |ids| && forall i :: 0 <= i < |ids| ==> r.value[i] == directory[ids[i]]
    ensures r.Failure? ==>
      exists i :: 0 <= i < |ids| && ids[i] !in directory && r.error == LookupMiss(IdValue(ids[i])) &&
        forall j :: 0 <= j < i ==> ids[j] in directory
    decreases |ids|
  {
    if |ids| == 0 then Success([])
    else if ids[0] !in directory then Failure(LookupMiss(IdValue(ids[0])))
    else
      var rest := LookupAll(directory, ids[1..]);
      if rest.Failure? then
        assert forall i :: 0 <= i < |ids| - 1 ==> ids[1..][i] == ids[i + 1];
        rest
      else
        Success([directory[ids[0]]] + rest.value)
  }

  /** `userObjs`: the contacts named by the identifiers in the field `idField`, in order. */
  function UserObjs<E>(s: Session<E>, fields: map<string, FieldValue>, idField: string): (r: Result<seq<E>, ResolveError>)
    ensures idField !in fields ==> r == Failure(NoAttribute(idField))
    ensures idField in fields && fields[idField] == NoneValue ==> r == Failure(NotIterable(idField))
    ensures idField in fields && fields[idField].IdListValue? ==>
      var ids := fields[idField].ids;
      (r.Success? <==> forall i :: 0 <= i < |ids| ==> ids[i] in s.contacts) &&
      (r.Success? ==> |r.value| == |ids| && forall i :: 0 <= i < |ids| ==> r.value[i] == s.contacts[ids[i]])
    ensures idField in fields && fields[idField].IdValue? ==>
      var str := fields[idField].id;
      (r.Success? <==> forall i :: 0 <= i < |str| ==> [str[i]] in s.contacts) &&
      (r.Success? ==> |r.value| == |str| && forall i :: 0 <= i < |str| ==> r.value[i] == s.contacts[[str[i]]])
  {
    if idField !in fields then Failure(NoAttribute(idField))
    else
      match Iterate(fields[idField])
      case None => Failure(NotIterable(idField))
      case Some(ids) =>
        assert fields[idField].IdValue? ==> forall i :: 0 <= i < |ids| ==> ids[i] == [fields[idField].id[i]];
        LookupAll(s.contacts, ids)
  }

  /** Reading a property of an entity whose class carries the accessor table `table`. */
  function Access<E>(table: map<string, Accessor>, s: Session<E>, fields: map<string, FieldValue>, property: string): (r: Result<Resolved<E>, ResolveError>)
    ensures property !in table ==> r == Failure(NoAttribute(property))
    ensures r.Success? && table[property].kind == Users ==> r.value.Many?
    ensures r.Success? && table[property].kind != Users ==> r.value.One?
  {
    if property !in table then Failure(NoAttribute(property))
    else
      var a := table[property];
      match a.kind
      case User =>
        (match UserObj(s, fields, a.idField)
         case Success(e) => Success(One(e))
         case Failure(err) => Failure(err))
      case Chat =>
        (match ChatObj(s, fields, a.idField)
         case Success(e) => Success(One(e))
         case Failure(err) => Failure(err))
      case Users =>
        (match UserObjs(s, fields, a.idField)
         case Success(es) => Success(Many(es))
         case Failure(err) => Failure(err))
  }

  /** Each item the list accessor yields is what the single accessor yields for that identifier. */
  lemma ListAgreesWithSingle<E>(s: Session<E>, fields: map<string, FieldValue>, idField: string, i: nat)
    requires idField in fields && fields[idField].IdListValue? && i < |fields[idField].ids|
    requires UserObjs(s, fields, idField).Success?
    ensures UserObj(s, fields[idField := IdValue(fields[idField].ids[i])], idField).Success?
    ensures UserObjs(s, fields, idField).value[i] ==
      UserObj(s, fields[idField := IdValue(fields[idField].ids[i])], idField).value
  {
  }

  /**
   * Reading a derived property dispatches on its kind to the matching accessor: it
   * succeeds exactly when that accessor does, with its value, and otherwise fails with
   * that accessor's error.
   */
  lemma AccessDispatch<E>(table: map<string, Accessor>, s: Session<E>, fields: map<string, FieldValue>, property: string)
    requires property in table
    ensures table[property].kind == User ==>
      var u := UserObj(s, fields, table[property].idField);
      Access(table, s, fields, property) == if u.Success? then Success(One(u.value)) else Failure(u.error)
    ensures table[property].kind == Chat ==>
      var c := ChatObj(s, fields, table[property].idField);
      Access(table, s, fields, property) == if c.Success? then Success(One(c.value)) else Failure(c.error)
    ensures table[property].kind == Users ==>
      var us := UserObjs(s, fields, table[property].idField);
      Access(table, s, fields, property) == if us.Success? then Success(Many(us.value)) else Failure(us.error)
  {
  }

  /**
   * End to end: on a class decorated with `user=[..., f, ...]`, where no later declaration
   * takes the name `f`, reading `f` is `userObj` on the field `fId`.
   */
  lemma ReadNamedUser<E>(types: seq<string>, user: seq<string>, users: seq<string>, chat: seq<string>, i: nat,
                         s: Session<E>, fields: map<string, FieldValue>)
    requires i < |user|
    requires forall j :: i < j < |user| ==> user[j] != user[i]
    requires forall j :: 0 <= j < |users| ==> users[j] + "s" != user[i]
    requires forall j :: 0 <= j < |chat| ==> chat[j] != user[i]
    ensures var u := UserObj(s, fields, user[i] + "Id");
      Access(ConvertIds(types, user, users, chat), s, fields, user[i]) ==
        if u.Success? then Success(One(u.value)) else Failure(u.error)
  {
    NamedUserDeclared(types, user, users, chat, i);
    AccessDispatch(ConvertIds(types, user, users, chat), s, fields, user[i]);
  }

  /**
   * End to end: on a class decorated with `users=[..., f, ...]`, where no later declaration
   * takes the name `fs`, reading `fs` is `userObjs` on the field `fIds`.
   */
  lemma ReadNamedUsers<E>(types: seq<string>, user: seq<string>, users: seq<string>, chat: seq<string>, i: nat,
                          s: Session<E>, fields: map<string, FieldValue>)
    requires i < |users|
    requires forall j :: i < j < |users| ==> users[j] != users[i]
    requires forall j :: 0 <= j < |chat| ==> chat[j] != users[i] + "s"
    ensures var us := UserObjs(s, fields, users[i] + "Ids");
      Access(ConvertIds(types, user, users, chat), s, fields, users[i] + "s") ==
        if us.Success? then Success(Many(us.value)) else Failure(us.error)
  {
    NamedUsersDeclared(types, user, users, chat, i);
    AccessDispatch(ConvertIds(types, user, users, chat), s, fields, users[i] + "s");
  }

  /**
   * End to end: on a class decorated with `chat=[..., f, ...]`, where no later declaration
   * takes the name `f`, reading `f` is `chatObj` on the field `fId`.
   */
  lemma ReadNamedChat<E>(types: seq<string>, user: seq<string>, users: seq<string>, chat: seq<string>, i: nat,
                         s: Session<E>, fields: map<string, FieldValue>)
    requires i < |chat|
    requires forall j :: i < j < |chat| ==> chat[j] != chat[i]
    ensures var c := ChatObj(s, fields, chat[i] + "Id");
      Access(ConvertIds(types, user, users, chat), s, fields, chat[i]) ==
        if c.Success? then Success(One(c.value)) else Failure(c.error)
  {
    NamedChatDeclared(types, user, users, chat, i);
    AccessDispatch(ConvertIds(types, user, users, chat), s, fields, chat[i]);
  }

  /**
   * `@convertIds("user")` on an entity whose `userId` is `alice`: reading `user` gives the
   * contacts entry for `alice`, and fails with a lookup miss when there is none.
   */
  lemma UserShorthandExample<E>(s: Session<E>)
    ensures
      var table := ConvertIds(["user"], [], [], []);
      var fields := map["userId" := IdValue("alice")];
      Access(table, s, fields, "user") ==
        if "alice" in s.contacts then Success(One(s.contacts["alice"]))
        else Failure(LookupMiss(IdValue("alice")))
  {
    var decls := Declarations(["user"], [], [], []);
    assert decls == [Accessor(User, "user", "userId")];
    LastForFinds(decls, 0);
  }

  /**
   * `@convertIds(users=["member"])` on an entity whose `memberIds` is `["a", "b"]`:
   * reading `members` gives the contacts for `a` then `b`.
   */
  lemma UserListExample<E>(s: Session<E>)
    requires "a" in s.contacts && "b" in s.contacts
    ensures
      var table := ConvertIds([], [], ["member"], []);
      var fields := map["memberIds" := IdListValue(["a", "b"])];
      Access(table, s, fields, "members") == Success(Many([s.contacts["a"], s.contacts["b"]]))
  {
    var table := ConvertIds([], [], ["member"], []);
    var fields := map["memberIds" := IdListValue(["a", "b"])];
    assert "members" in table && table["members"] == Accessor(Users, "members", "memberIds") by {
      var decls := Declarations([], [], ["member"], []);
      assert "member" + "s" == "members" && "member" + "Ids" == "memberIds";
      assert NamedAll(Users, ["member"]) == [Named(Users, "member")];
      assert decls == [Accessor(Users, "members", "memberIds")];
      LastForFinds(decls, 0);
    }
    assert UserObjs(s, fields, "memberIds") == Success([s.contacts["a"], s.contacts["b"]]) by {
      var r := UserObjs(s, fields, "memberIds");
      assert r.Success? && |r.value| == 2;
      assert r.value == [s.contacts["a"], s.contacts["b"]];
    }
  }
}
