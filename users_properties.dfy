/**
  `CoreUtils.createUsersFromRoles`: the content of a users.properties (or
  roles.properties) file in which every role is also a user whose
  password is its own name, one `role=role` line per role.
 */
module UsersProperties {
  import opened JavaLang
  import opened Framing

  /** The line written for one role. */
  function Entry(role: string): string {
    role + "=" + role + "\n"
  }

  /** Specification of `createUsersFromRoles`: every role's line, in order. */
  function Entries(roles: seq<string>): string {
    if |roles| == 0 then "" else Entry(roles[0]) + Entries(roles[1..])
  }

  /**
    Reader for the `key=value` lines written here: the key runs up to the
    first '=', the value up to the next newline, and every line must end
    with one. This is a line splitter, not the `java.util.Properties`
    format: ':', whitespace, a leading '#' or '!' and `\` get no special
    treatment here.
   */
  function ParseProperties(s: string): Option<seq<(string, string)>>
    decreases |s|
  {
    if |s| == 0 then Some([])
    else
      var key := TakeUntil(s, '=');
      if |key| == |s| then None
      else
        var rest := s[|key| + 1..];
        var value := TakeUntil(rest, '\n');
        if |value| == |rest| then None
        else
          match ParseProperties(rest[|value| + 1..])
          case Some(entries) => Some([(key, value)] + entries)
          case None => None
  }

  /** The entries a users.properties written for `roles` holds: user name and password both the role. */
  function SelfMapped(roles: seq<string>): (ps: seq<(string, string)>)
    ensures |ps| == |roles|
    ensures forall i :: 0 <= i < |roles| ==> ps[i] == (roles[i], roles[i])
  {
    if |roles| == 0 then [] else [(roles[0], roles[0])] + SelfMapped(roles[1..])
  }

  /**
    `createUsersFromRoles(roles...)`: appends `role=role` and a newline for
    each role (a null role as "null"); a null array gives the empty text,
    so the result is never null.
   */
  method CreateUsersFromRoles(roles: array?<JString>) returns (content: string)
    ensures content == Entries(Texts(VarArgs(roles)))
  {
    var sb := "";
    if roles != null {
      var i := 0;
      while i < roles.Length
        invariant 0 <= i <= roles.Length
        invariant sb == Entries(Texts(roles[..i]))
      {
        var role := roles[i];
        assert roles[..i + 1][..i] == roles[..i];
        EntriesSnoc(Texts(roles[..i]), Text(role));
        sb := sb + Text(role) + "=" + Text(role) + "\n";
        i := i + 1;
      }
      assert roles[..i] == roles[..];
    }
    content := sb;
  }

  // ---------------------------------------------------------------------
  // Lemmas
  // ---------------------------------------------------------------------

  /** The lines of two lists of roles, one after the other, are the lines of the joined list. */
  lemma {:induction false} EntriesConcat(xs: seq<string>, ys: seq<string>)
    ensures Entries(xs + ys) == Entries(xs) + Entries(ys)
  {
    if |xs| == 0 {
      assert xs + ys == ys;
    } else {
      assert (xs + ys)[1..] == xs[1..] + ys;
      EntriesConcat(xs[1..], ys);
    }
  }

  /** One more role adds its line at the end. */
  lemma EntriesSnoc(roles: seq<string>, role: string)
    ensures Entries(roles + [role]) == Entries(roles) + Entry(role)
  {
    EntriesConcat(roles, [role]);
    assert [role][1..] == [];
  }

  /** The text has two characters per role beyond twice the roles' own lengths. */
  lemma {:induction false} EntriesLength(roles: seq<string>)
    ensures |Entries(roles)| == 2 * |roles| + 2 * SumOfLengths(roles)
  {
    if |roles| > 0 {
      EntriesLength(roles[1..]);
    }
  }

  function SumOfLengths(roles: seq<string>): nat {
    if |roles| == 0 then 0 else |roles[0]| + SumOfLengths(roles[1..])
  }

  /** One line splits back into its key and value when the role has no '=' and no newline. */
  lemma EntrySplit(role: string, tail: string)
    requires '=' !in role && '\n' !in role
    ensures var s := Entry(role) + tail;
      && TakeUntil(s, '=') == role
      && TakeUntil(s[|role| + 1..], '\n') == role
      && s[|role| + 1..][|role| + 1..] == tail
  {
    var s := Entry(role) + tail;
    assert s == role + ['='] + (role + "\n" + tail);
    TakeUntilFirst(role, '=', role + "\n" + tail);
    assert s[|role| + 1..] == role + ['\n'] + tail;
    TakeUntilFirst(role, '\n', tail);
  }

  /**
    Reading the generated text back gives one entry per role, in order,
    each mapping the role to itself, provided no role contains '=' or a
    newline.
   */
  lemma {:induction false} UsersPropertiesRoundTrip(roles: seq<string>)
    requires forall i :: 0 <= i < |roles| ==> '=' !in roles[i] && '\n' !in roles[i]
    ensures ParseProperties(Entries(roles)) == Some(SelfMapped(roles))
  {
    if |roles| > 0 {
      EntrySplit(roles[0], Entries(roles[1..]));
      UsersPropertiesRoundTrip(roles[1..]);
    }
  }
}
