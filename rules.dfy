/**
 * The filter rules the bot keeps on the upstream streaming API: the rule
 * it adds for one user and the way it finds that rule again to delete it.
 * Rules and request bodies are records here, not JSON text.
 */
module Rules {
  import opened Wrappers

  /** A rule as the rules endpoint lists it. */
  datatype Rule = Rule(id: string, value: string, tag: string)

  /** One element of the `add` array of a create request. */
  datatype RuleSpec = RuleSpec(value: string, tag: string)

  /** Body `{"add": [...]}` of a create request. */
  datatype AddRequest = AddRequest(add: seq<RuleSpec>)

  /** Body `{"delete": {"ids": [...]}}` of a delete request. */
  datatype DeleteRequest = DeleteRequest(ids: seq<string>)

  /** The `unwrap` on the search result panics: no rule carries the user's tag. */
  datatype DeleteError = NoRuleForUser(user: string)

  /** The tag that marks the rule of one user: `format!("from {}", user)`. */
  function UserTag(user: string): (tag: string)
    ensures |tag| == |user| + 5 && tag[..5] == "from " && tag[5..] == user
  {
    "from " + user
  }

  /**
   * The rule created for `user`: it matches the user's posts
   * (`from:<user>`) and carries the tag `from <user>`.
   */
  function UserRule(user: string): (r: RuleSpec)
    ensures r.tag == UserTag(user)
    ensures |r.value| == |r.tag| && r.value[5..] == user && r.value[..5] == "from:"
  {
    RuleSpec("from:" + user, UserTag(user))
  }

  /** Tags of different users differ, so a user's tag selects only their rules. */
  lemma UserTagInjective(u1: string, u2: string)
    requires UserTag(u1) == UserTag(u2)
    ensures u1 == u2
  {
    assert u1 == UserTag(u1)[5..];
  }

  /** The body `create_only_user_stream_rule` posts: a single rule for `user`. */
  function CreateRequest(user: string): (req: AddRequest)
    ensures |req.add| == 1 && req.add[0] == UserRule(user)
  {
    AddRequest([UserRule(user)])
  }

  /** The index of the first rule tagged `tag` (the iterator `find`), if any. */
  function FindTagged(rules: seq<Rule>, tag: string): (i: Option<nat>)
    ensures i.Some? ==> i.value < |rules| && rules[i.value].tag == tag
    ensures i.Some? ==> forall j :: 0 <= j < i.value ==> rules[j].tag != tag
    ensures i.None? <==> forall j :: 0 <= j < |rules| ==> rules[j].tag != tag
  {
    if rules == [] then None
    else if rules[0].tag == tag then Some(0)
    else match FindTagged(rules[1..], tag)
      case None => None
      case Some(k) => Some(k + 1)
  }

  /**
   * The delete request `delete_only_user_stream_rule` sends for `user`: the
   * id of the first rule tagged `from <user>` and nothing else, even when
   * several rules carry the tag; an error when none does.
   */
  function DeleteUserRequest(rules: seq<Rule>, user: string): (r: Result<DeleteRequest, DeleteError>)
    ensures r.Err? <==> forall j :: 0 <= j < |rules| ==> rules[j].tag != UserTag(user)
    ensures r.Err? ==> r.error == NoRuleForUser(user)
    ensures r.Ok? ==> |r.value.ids| == 1
    ensures r.Ok? ==> exists i :: (
      && 0 <= i < |rules|
      && rules[i].tag == UserTag(user)
      && r.value.ids[0] == rules[i].id
      && forall j :: 0 <= j < i ==> rules[j].tag != UserTag(user))
  {
    match FindTagged(rules, UserTag(user))
    case None => Err(NoRuleForUser(user))
    case Some(i) => Ok(DeleteRequest([rules[i].id]))
  }

  /**
   * What the create step writes is what the delete step looks for: once the
   * rule created for `user` is listed (under any id), deleting for `user`
   * succeeds.
   */
  lemma CreateThenDelete(rules: seq<Rule>, user: string, id: string)
    requires Rule(id, CreateRequest(user).add[0].value, CreateRequest(user).add[0].tag) in rules
    ensures DeleteUserRequest(rules, user).Ok?
  {
    var i :| 0 <= i < |rules| && rules[i] == Rule(id, UserRule(user).value, UserRule(user).tag);
    assert rules[i].tag == UserTag(user);
  }

  /**
   * When no earlier rule carries the user's tag, deleting for the user picks
   * exactly the id of the rule created for them; rules after it, even ones
   * with the same tag, are left alone.
   */
  lemma CreateThenDeleteSelects(before: seq<Rule>, after: seq<Rule>, user: string, id: string)
    requires forall j :: 0 <= j < |before| ==> before[j].tag != UserTag(user)
    ensures var created := CreateRequest(user).add[0];
            DeleteUserRequest(before + [Rule(id, created.value, created.tag)] + after, user)
              == Ok(DeleteRequest([id]))
  {
    var rules := before + [Rule(id, UserRule(user).value, UserRule(user).tag)] + after;
    var k := FindTagged(rules, UserTag(user));
    assert rules[|before|].tag == UserTag(user);
    assert forall j :: 0 <= j < |before| ==> rules[j] == before[j];
  }
}
