/** The verify callback of the Google strategy (config/passport.js):
    find the user by the profile's first email and insert one if there
    is none. */
module GoogleAuth {
  import opened Store

  /** The parts of a Google profile the callback reads. */
  datatype Profile = Profile(displayName: string, emails: seq<string>)

  /** What the callback hands to `done`: `done(null, profile)` or
      `done(err, null)`. */
  datatype Done = Authenticated(profile: Profile) | Failed

  /** The callback. A profile without emails makes `emails[0]` throw,
      which the `catch` turns into `done(err, null)`, as it does a store
      error. Otherwise the profile itself is passed on, and a row with
      only `email` and `nombre` set is inserted when no row has the
      email; every other column takes the database default. */
  function FindOrCreate(t: Table, profile: Profile, storeUp: bool): (r: Step<Done>)
    ensures !storeUp || |profile.emails| == 0 ==> r == Step(t, Failed)
    ensures storeUp && |profile.emails| > 0 ==> r.out == Authenticated(profile)
    ensures storeUp && |profile.emails| > 0 &&
            (exists i :: 0 <= i < |t.rows| && t.rows[i].email == profile.emails[0]) ==>
      r.table == t
    ensures storeUp && |profile.emails| > 0 &&
            (forall i :: 0 <= i < |t.rows| ==> t.rows[i].email != profile.emails[0]) ==>
      && |r.table.rows| == |t.rows| + 1
      && r.table.rows[..|t.rows|] == t.rows
      && r.table.nextId == t.nextId + 1
      && r.table.defaults == t.defaults
      && r.table.rows[|t.rows|] ==
           User(t.nextId, profile.displayName, profile.emails[0], None, t.defaults.verificado,
                None, t.defaults.tipoUsuario, t.defaults.estado, None, None)
    ensures WellFormed(t) ==> WellFormed(r.table)
    ensures UniqueEmails(t.rows) ==> UniqueEmails(r.table.rows)
  {
    if !storeUp || |profile.emails| == 0 then Step(t, Failed)
    else
      var email := profile.emails[0];
      if FirstWithEmail(t.rows, email).Some? then
        Step(t, Authenticated(profile))
      else
        var row := User(t.nextId, profile.displayName, email, None, t.defaults.verificado,
                        None, t.defaults.tipoUsuario, t.defaults.estado, None, None);
        Step(Insert(t, row), Authenticated(profile))
  }

  /** Running the callback a second time with the same profile changes
      nothing more. */
  lemma FindOrCreateIdempotent(t: Table, profile: Profile, storeUp: bool)
    ensures var t1 := FindOrCreate(t, profile, storeUp).table;
      FindOrCreate(t1, profile, storeUp) == Step(t1, FindOrCreate(t, profile, storeUp).out)
  {
  }

  /** After the callback a table that had at most one row for the email
      has exactly one, and a second run keeps it at one. */
  lemma FindOrCreateLeavesOneRow(t: Table, profile: Profile)
    requires |profile.emails| > 0
    requires Count(t.rows, (u: User) => HasEmail(u, profile.emails[0])) <= 1
    ensures var t1 := FindOrCreate(t, profile, true).table;
      var t2 := FindOrCreate(t1, profile, true).table;
      && Count(t1.rows, (u: User) => HasEmail(u, profile.emails[0])) == 1
      && Count(t2.rows, (u: User) => HasEmail(u, profile.emails[0])) == 1
  {
  }

  /** Only the first email is the lookup key: profiles that agree on it
      and on the display name have the same effect. */
  lemma OnlyFirstEmailMatters(t: Table, p1: Profile, p2: Profile, storeUp: bool)
    requires |p1.emails| > 0 && |p2.emails| > 0
    requires p1.emails[0] == p2.emails[0] && p1.displayName == p2.displayName
    ensures FindOrCreate(t, p1, storeUp).table == FindOrCreate(t, p2, storeUp).table
  {
  }
}
