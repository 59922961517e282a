/**
 * Role-based user ids of `POST /api/users`: a two-letter prefix per role and
 * a zero-padded counter one above the counter of the role's last id, where
 * "last" is the greatest id in the database's string order.
 */
module CustomId {
  import opened Wrappers
  import opened JsText

  /** How a role's ids are written and which role's users are searched for the last one. */
  datatype Scheme = Scheme(prefix: string, width: nat, role: string)

  /** Supervisors get `pg` + 3 digits, admins `am` + 3 digits, every other role `ms` + 4 digits. */
  function SchemeFor(upperRole: string): (s: Scheme)
    ensures |s.prefix| == 2 && s.width >= 3
    ensures s.role in {"PEMBIMBING", "ADMIN", "MAHASISWA"}
    ensures upperRole in {"PEMBIMBING", "ADMIN", "MAHASISWA"} ==> s.role == upperRole
    ensures upperRole != "PEMBIMBING" && upperRole != "ADMIN" ==> s.role == "MAHASISWA"
    ensures s.prefix == (if s.role == "PEMBIMBING" then "pg" else if s.role == "ADMIN" then "am" else "ms")
    ensures s.width == (if s.role == "MAHASISWA" then 4 else 3)
  {
    if upperRole == "PEMBIMBING" then Scheme("pg", 3, "PEMBIMBING")
    else if upperRole == "ADMIN" then Scheme("am", 3, "ADMIN")
    else Scheme("ms", 4, "MAHASISWA")
  }

  /** Each role has a prefix of its own, so ids of different roles never share one. */
  lemma SchemePrefixesDistinct(a: string, b: string)
    ensures SchemeFor(a).prefix == SchemeFor(b).prefix <==> SchemeFor(a).role == SchemeFor(b).role
  {
  }

  predicate StartsWith(s: string, prefix: string) {
    |prefix| <= |s| && s[..|prefix|] == prefix
  }

  /** The database's order on ids: character by character, a proper prefix first. */
  predicate LexLeq(a: string, b: string)
    decreases |a|
  {
    a == [] || (b != [] && (a[0] < b[0] || (a[0] == b[0] && LexLeq(a[1..], b[1..]))))
  }

  lemma {:induction false} LexLeqTotal(a: string, b: string)
    ensures LexLeq(a, b) || LexLeq(b, a)
    decreases |a|
  {
    if a != [] && b != [] && a[0] == b[0] {
      LexLeqTotal(a[1..], b[1..]);
    }
  }

  lemma {:induction false} LexLeqTransitive(a: string, b: string, c: string)
    requires LexLeq(a, b) && LexLeq(b, c)
    ensures LexLeq(a, c)
    decreases |a|
  {
    if a != [] && a[0] == b[0] && b[0] == c[0] {
      LexLeqTransitive(a[1..], b[1..], c[1..]);
    }
  }

  /** A user row as the id query sees it: its id and its role. */
  datatype UserRow = UserRow(id: string, role: string)

  /** The rows the query's `where` selects: the scheme's role and an id starting with its prefix. */
  predicate Candidate(u: UserRow, scheme: Scheme) {
    u.role == scheme.role && StartsWith(u.id, scheme.prefix)
  }

  /** Every candidate id of `users` is at most `top`, and so is every one at most `x` when `top <= x`. */
  lemma RaiseBound(users: seq<UserRow>, scheme: Scheme, top: string, x: string)
    requires forall i :: 0 <= i < |users| && Candidate(users[i], scheme) ==> LexLeq(users[i].id, top)
    requires LexLeq(top, x)
    ensures forall i :: 0 <= i < |users| && Candidate(users[i], scheme) ==> LexLeq(users[i].id, x)
  {
    forall i | 0 <= i < |users| && Candidate(users[i], scheme)
      ensures LexLeq(users[i].id, x)
    {
      LexLeqTransitive(users[i].id, top, x);
    }
  }

  /**
   * `findFirst` with `role`, `startsWith: prefix` and `orderBy: { id: 'desc' }`:
   * the greatest id among the users of the scheme's role whose id has the prefix.
   */
  function LastId(users: seq<UserRow>, scheme: Scheme): (r: Option<string>)
    ensures r.None? <==> forall i :: 0 <= i < |users| ==> !Candidate(users[i], scheme)
    ensures r.Some? ==> UserRow(r.value, scheme.role) in users && StartsWith(r.value, scheme.prefix)
    ensures r.Some? ==> forall i :: 0 <= i < |users| && Candidate(users[i], scheme) ==> LexLeq(users[i].id, r.value)
  {
    if users == [] then None
    else
      var rest := LastId(users[1..], scheme);
      assert forall i :: 1 <= i < |users| ==> users[i] == users[1..][i - 1];
      assert rest.Some? ==> UserRow(rest.value, scheme.role) in users by {
        if rest.Some? { assert UserRow(rest.value, scheme.role) in users[1..]; }
      }
      if !Candidate(users[0], scheme) then rest
      else if rest.None? then
        assert LexLeq(users[0].id, users[0].id) by { LexLeqTotal(users[0].id, users[0].id); }
        assert users[0] == UserRow(users[0].id, scheme.role);
        Some(users[0].id)
      else if LexLeq(users[0].id, rest.value) then rest
      else
        LexLeqTotal(users[0].id, rest.value);
        RaiseBound(users[1..], scheme, rest.value, users[0].id);
        assert LexLeq(users[0].id, users[0].id) by { LexLeqTotal(users[0].id, users[0].id); }
        assert users[0] == UserRow(users[0].id, scheme.role);
        Some(users[0].id)
  }

  /** `parseInt(id.replace(prefix, ''))`: the counter written after the prefix, None for NaN. */
  function CounterOf(id: string, prefix: string): Option<nat>
    requires StartsWith(id, prefix)
  {
    ParseInt(id[|prefix|..])
  }

  /** `lastNum + 1`, with `lastNum = 0` when the role has no id yet; None stands for NaN. */
  function NextCounter(users: seq<UserRow>, scheme: Scheme): (c: Option<nat>)
    ensures (forall i :: 0 <= i < |users| ==> !Candidate(users[i], scheme)) ==> c == Some(1)
    ensures LastId(users, scheme).Some? ==>
              (c.Some? <==> CounterOf(LastId(users, scheme).value, scheme.prefix).Some?)
    ensures LastId(users, scheme).Some? && c.Some? ==>
              c.value == CounterOf(LastId(users, scheme).value, scheme.prefix).value + 1
  {
    var last := LastId(users, scheme);
    if last.None? then Some(1)
    else
      var n := CounterOf(last.value, scheme.prefix);
      if n.None? then None else Some(n.value + 1)
  }

  /** `String(counter)`, which is "NaN" when the last id had no number. */
  function CounterText(c: Option<nat>): (t: string)
    ensures c.Some? ==> AllDigits(t) && ParseInt(t) == c
    ensures c.None? ==> ParseInt(t).None?
  {
    if c.Some? then
      ParseIntNatToString(c.value);
      NatToString(c.value)
    else "NaN"
  }

  /**
   * The id a new user of the scheme's role receives: the prefix, then the
   * counter's text left-padded with zeros to exactly the scheme's width
   * (a longer counter is kept whole).
   */
  function NextId(scheme: Scheme, users: seq<UserRow>): (id: string)
    ensures ZeroPadded(id, scheme.prefix, CounterText(NextCounter(users, scheme)), scheme.width)
    ensures NextCounter(users, scheme).Some? ==> CounterOf(id, scheme.prefix) == NextCounter(users, scheme)
  {
    PaddedCounter(scheme.prefix, NextCounter(users, scheme), scheme.width)
  }

  /** `id` is `prefix`, then zeros, then `t`, with at least `width` characters after the prefix. */
  predicate ZeroPadded(id: string, prefix: string, t: string, width: nat) {
    && StartsWith(id, prefix)
    && |id| == |prefix| + (if |t| >= width then |t| else width)
    && id[|id| - |t|..] == t
    && forall i :: |prefix| <= i < |id| - |t| ==> id[i] == '0'
  }

  /** The prefix, then the counter's text padded with zeros to `width`; it reads back as the counter. */
  function PaddedCounter(prefix: string, c: Option<nat>, width: nat): (id: string)
    ensures ZeroPadded(id, prefix, CounterText(c), width)
    ensures c.Some? ==> CounterOf(id, prefix) == c
  {
    var id := prefix + PadStart(CounterText(c), width, '0');
    PrefixedPad(prefix, CounterText(c), width);
    if c.Some? then
      ParseIntPadded(c.value, width);
      id
    else id
  }

  /** The prefix followed by `t` left-padded with zeros. */
  lemma PrefixedPad(prefix: string, t: string, width: nat)
    ensures var id := prefix + PadStart(t, width, '0');
            && StartsWith(id, prefix) && id[|prefix|..] == PadStart(t, width, '0')
            && |id| == |prefix| + (if |t| >= width then |t| else width)
            && id[|id| - |t|..] == t
            && forall i :: |prefix| <= i < |id| - |t| ==> id[i] == '0'
  {
    var digits := PadStart(t, width, '0');
    var id := prefix + digits;
    assert id[..|prefix|] == prefix && id[|prefix|..] == digits;
    assert id[|id| - |t|..] == digits[|digits| - |t|..];
    forall i | |prefix| <= i < |id| - |t| ensures id[i] == '0' {
      assert id[i] == digits[i - |prefix|];
    }
  }

  /** The first user of a role gets counter 1, zero-padded to the role's width. */
  lemma FirstIdOfRole(upperRole: string, users: seq<UserRow>)
    requires forall i :: 0 <= i < |users| ==> !Candidate(users[i], SchemeFor(upperRole))
    ensures var s := SchemeFor(upperRole);
            NextId(s, users) == s.prefix + Repeat('0', s.width - 1) + "1"
  {
    var s := SchemeFor(upperRole);
    assert NextCounter(users, s) == Some(1);
    assert CounterText(Some(1)) == "1" by { assert NatToString(1) == "1"; }
    assert NextId(s, users) == s.prefix + PadStart("1", s.width, '0');
    PadOne(s.width);
  }

  lemma PadOne(width: nat)
    requires width >= 1
    ensures PadStart("1", width, '0') == Repeat('0', width - 1) + "1"
  {
    var p := PadStart("1", width, '0');
    assert p[..width - 1] == Repeat('0', width - 1);
    assert p == p[..width - 1] + p[width - 1..];
  }

  /** After a last id whose counter is `n`, the next id of the role carries `n + 1`. */
  lemma NextIdSucceeds(scheme: Scheme, users: seq<UserRow>)
    requires LastId(users, scheme).Some?
    requires CounterOf(LastId(users, scheme).value, scheme.prefix).Some?
    ensures CounterOf(NextId(scheme, users), scheme.prefix)
              == Some(CounterOf(LastId(users, scheme).value, scheme.prefix).value + 1)
  {
  }

  /** Two supervisors, pg999 and pg1000. */
  function Supervisors999And1000(): seq<UserRow> {
    [UserRow("pg999", "PEMBIMBING"), UserRow("pg1000", "PEMBIMBING")]
  }

  /**
   * Finding (as written): once a 3-digit role passes 999 the string order
   * puts "pg999" after "pg1000", so the last id found is "pg999" and the id
   * generated is "pg1000" again, an id that already exists.
   */
  lemma LexicalLastIdRepeats()
    ensures NextId(SchemeFor("PEMBIMBING"), Supervisors999And1000()) == "pg1000"
    ensures exists u :: u in Supervisors999And1000() && u.id == "pg1000"
  {
    var users := Supervisors999And1000();
    var scheme := SchemeFor("PEMBIMBING");
    assert scheme == Scheme("pg", 3, "PEMBIMBING");
    LastIdPrefersShorter();
    CounterOfPg999();
    assert NextCounter(users, scheme) == Some(1000);
    ThousandText();
    assert CounterText(Some(1000)) == "1000";
    assert NextId(scheme, users) == "pg" + PadStart("1000", 3, '0');
    assert "pg" + "1000" == "pg1000";
    assert users[1] in users;
  }

  /** In string order "pg1000" sorts before "pg999", so the search returns "pg999". */
  lemma LastIdPrefersShorter()
    ensures LastId(Supervisors999And1000(), Scheme("pg", 3, "PEMBIMBING")) == Some("pg999")
  {
    var users := Supervisors999And1000();
    var scheme := Scheme("pg", 3, "PEMBIMBING");
    assert users[1].id[2] == '1' && users[0].id[2] == '9';
    assert users[1].id[..2] == "pg" && users[0].id[..2] == "pg";
    assert Candidate(users[0], scheme) && Candidate(users[1], scheme);
    assert LexLeq(users[1].id[2..], users[0].id[2..]);
    assert !LexLeq(users[0].id[2..], users[1].id[2..]);
    assert LexLeq(users[1].id, users[0].id) && !LexLeq(users[0].id, users[1].id);
    assert users[1..] == [UserRow("pg1000", "PEMBIMBING")];
    assert LastId(users[1..], scheme) == Some("pg1000");
  }

  lemma CounterOfPg999()
    ensures StartsWith("pg999", "pg") && CounterOf("pg999", "pg") == Some(999)
  {
    assert "pg999"[2..] == "999";
    assert AllDigits("999");
    AllDigitsLeading("999");
    assert ParseDigits("999") == 999 by {
      assert "999"[..2] == "99" && "99"[..1] == "9" && "9"[..0] == "";
    }
  }

  lemma ThousandText()
    ensures NatToString(1000) == "1000"
    ensures PadStart("1000", 3, '0') == "1000"
  {
    assert NatToString(1) == "1";
    assert NatToString(10) == "10";
    assert NatToString(100) == "100";
  }

  /** A supervisor whose role `PUT /api/users/:id` has changed to ADMIN; the id keeps its prefix. */
  function PromotedSupervisor(): seq<UserRow> {
    [UserRow("pg001", "ADMIN")]
  }

  /**
   * Finding (as written): the query only looks at users that still have the
   * role, so once the only supervisor has become an admin the next
   * supervisor is given "pg001", the id the admin still holds.
   */
  lemma RoleChangeRepeatsId()
    ensures NextId(SchemeFor("PEMBIMBING"), PromotedSupervisor()) == "pg001"
    ensures exists u :: u in PromotedSupervisor() && u.id == "pg001"
  {
    var users := PromotedSupervisor();
    var scheme := SchemeFor("PEMBIMBING");
    assert scheme == Scheme("pg", 3, "PEMBIMBING");
    assert users[0].role != scheme.role;
    assert forall i :: 0 <= i < |users| ==> !Candidate(users[i], scheme);
    assert NextCounter(users, scheme) == Some(1);
    assert CounterText(Some(1)) == "1" by { assert NatToString(1) == "1"; }
    assert NextId(scheme, users) == "pg" + PadStart("1", 3, '0');
    PadOne(3);
    assert Repeat('0', 2) == "00";
    assert "pg" + "00" + "1" == "pg001";
    assert users[0] in users;
  }

  /**
   * The largest counter among all ids with the prefix whose counter parses,
   * whatever the role of the user holding it; 0 when there is none.
   */
  function MaxCounter(users: seq<UserRow>, prefix: string): (m: nat)
    ensures forall i :: 0 <= i < |users| && StartsWith(users[i].id, prefix) && CounterOf(users[i].id, prefix).Some? ==>
              CounterOf(users[i].id, prefix).value <= m
    ensures m > 0 ==> exists u :: u in users && StartsWith(u.id, prefix) && CounterOf(u.id, prefix) == Some(m)
  {
    if users == [] then 0
    else
      var rest := MaxCounter(users[1..], prefix);
      assert forall i :: 1 <= i < |users| ==> users[i] == users[1..][i - 1];
      assert rest > 0 ==> exists u :: u in users && StartsWith(u.id, prefix) && CounterOf(u.id, prefix) == Some(rest) by {
        if rest > 0 {
          var u :| u in users[1..] && StartsWith(u.id, prefix) && CounterOf(u.id, prefix) == Some(rest);
          assert u in users;
        }
      }
      if StartsWith(users[0].id, prefix) && CounterOf(users[0].id, prefix).Some? && CounterOf(users[0].id, prefix).value > rest
      then
        assert users[0] in users;
        CounterOf(users[0].id, prefix).value
      else rest
  }

  /**
   * The id numbered one above the largest counter in use under the prefix,
   * by number rather than by string order, and over every user rather than
   * those still holding the role: it never collides with an existing id.
   */
  function NextIdByValue(scheme: Scheme, users: seq<UserRow>): (id: string)
    ensures StartsWith(id, scheme.prefix)
    ensures CounterOf(id, scheme.prefix) == Some(MaxCounter(users, scheme.prefix) + 1)
    ensures forall i :: 0 <= i < |users| ==> users[i].id != id
  {
    var n := MaxCounter(users, scheme.prefix) + 1;
    var id := scheme.prefix + PadStart(NatToString(n), scheme.width, '0');
    PrefixedPad(scheme.prefix, NatToString(n), scheme.width);
    ParseIntPadded(n, scheme.width);
    assert CounterOf(id, scheme.prefix) == Some(n);
    assert forall i :: 0 <= i < |users| ==> users[i].id != id by {
      forall i | 0 <= i < |users| ensures users[i].id != id {
        if StartsWith(users[i].id, scheme.prefix) {
          assert CounterOf(users[i].id, scheme.prefix) != Some(n);
        }
      }
    }
    id
  }

  /** The corrected generator gives pg1001 after pg999 and pg1000. */
  lemma NextIdByValuePassesThousand()
    ensures CounterOf(NextIdByValue(SchemeFor("PEMBIMBING"), Supervisors999And1000()), "pg") == Some(1001)
  {
    var a := Supervisors999And1000();
    assert SchemeFor("PEMBIMBING").prefix == "pg";
    CounterOfPg1000();
    CounterOfPg999();
    assert a[1..] == [a[1]] && a[1..][1..] == [];
    assert MaxCounter(a[1..], "pg") == 1000;
    assert MaxCounter(a, "pg") == 1000;
  }

  /** The corrected generator gives pg002 beside the promoted pg001. */
  lemma NextIdByValueSeesOtherRoles()
    ensures CounterOf(NextIdByValue(SchemeFor("PEMBIMBING"), PromotedSupervisor()), "pg") == Some(2)
  {
    var b := PromotedSupervisor();
    assert SchemeFor("PEMBIMBING").prefix == "pg";
    CounterOfPg001();
    assert b[1..] == [];
    assert MaxCounter(b, "pg") == 1;
  }

  lemma CounterOfPg1000()
    ensures StartsWith("pg1000", "pg") && CounterOf("pg1000", "pg") == Some(1000)
  {
    assert "pg1000"[2..] == "1000";
    ThousandText();
    AllDigitsLeading("1000");
    ParseNatToString(1000);
  }

  lemma CounterOfPg001()
    ensures StartsWith("pg001", "pg") && CounterOf("pg001", "pg") == Some(1)
  {
    assert "pg001"[2..] == "001";
    assert AllDigits("001");
    AllDigitsLeading("001");
    assert ParseDigits("001") == 1 by {
      assert "001"[..2] == "00" && "00"[..1] == "0" && "0"[..0] == "";
    }
  }
}
