/** front_router (apps/atgilet/views.py): which page the site root serves. While the site
    is in maintenance, only staff users who are signed in see the main site; everyone else
    sees the under-construction page. */
module FrontRouter {
  import opened Wrappers

  /** A stored site-settings row with its primary key. */
  datatype SettingsRow = SettingsRow(pk: nat, maintenanceMode: bool)

  /** The parts of request.user the router reads. */
  datatype User = User(isAuthenticated: bool, isStaff: bool)

  /** The two views the router delegates to. */
  datatype Page = UnderConstruction | MainSite

  /** Without a settings row the site counts as in maintenance. */
  const MaintenanceWithoutSettings := true

  /** The row objects.first() returns: the one with the smallest primary key. */
  function FirstSettings(rows: seq<SettingsRow>): (r: Option<SettingsRow>)
    ensures r.None? <==> rows == []
    ensures r.Some? ==> r.value in rows && forall k :: 0 <= k < |rows| ==> r.value.pk <= rows[k].pk
    decreases |rows|
  {
    if rows == [] then None
    else
      var rest := FirstSettings(rows[1..]);
      if rest.None? || rows[0].pk <= rest.value.pk then Some(rows[0]) else rest
  }

  /** settings.maintenance_mode if settings else True */
  function Maintenance(rows: seq<SettingsRow>): (on: bool)
    ensures rows == [] ==> on == MaintenanceWithoutSettings
    ensures rows != [] ==> exists k :: 0 <= k < |rows| && on == rows[k].maintenanceMode &&
                                       forall j :: 0 <= j < |rows| ==> rows[k].pk <= rows[j].pk
  {
    var s := FirstSettings(rows);
    if s.Some? then s.value.maintenanceMode else MaintenanceWithoutSettings
  }

  /** user.is_authenticated and user.is_staff */
  predicate IsAdmin(u: User) {
    u.isAuthenticated && u.isStaff
  }

  /** The page served for the site root. */
  function Route(rows: seq<SettingsRow>, u: User): (p: Page)
    ensures p == UnderConstruction <==> Maintenance(rows) && !IsAdmin(u)
    ensures p == MainSite <==> !Maintenance(rows) || IsAdmin(u)
  {
    if Maintenance(rows) && !IsAdmin(u) then UnderConstruction else MainSite
  }

  /** With no settings row, everyone but a signed-in staff user gets the under-construction
      page. */
  lemma NoSettingsRoute(u: User)
    ensures Route([], u) == UnderConstruction <==> !u.isAuthenticated || !u.isStaff
  {
  }

  /** A signed-in staff user always gets the main site; so does everyone while maintenance
      is off. */
  lemma MainSiteRoute(rows: seq<SettingsRow>, u: User)
    ensures u.isAuthenticated && u.isStaff ==> Route(rows, u) == MainSite
    ensures !Maintenance(rows) ==> Route(rows, u) == MainSite
  {
  }

  /** Neither flag alone makes a user an admin: a staff user who is not signed in, or a
      signed-in user who is not staff, is treated like an anonymous visitor. */
  lemma AdminNeedsBoth(rows: seq<SettingsRow>, staff: bool, signedIn: bool)
    ensures Route(rows, User(false, staff)) == Route(rows, User(signedIn, false))
  {
  }

  /** Only the first row counts: rows with larger primary keys do not change the route. */
  lemma FirstRowDecides(rows: seq<SettingsRow>, extra: SettingsRow, u: User)
    requires rows != [] && forall k :: 0 <= k < |rows| ==> rows[k].pk < extra.pk
    ensures Route(rows + [extra], u) == Route(rows, u)
  {
    FirstSettingsAppend(rows, extra);
  }

  lemma {:induction false} FirstSettingsAppend(rows: seq<SettingsRow>, extra: SettingsRow)
    requires rows != [] && forall k :: 0 <= k < |rows| ==> rows[k].pk < extra.pk
    ensures FirstSettings(rows + [extra]) == FirstSettings(rows)
    decreases |rows|
  {
    assert (rows + [extra])[1..] == rows[1..] + [extra];
    if |rows| > 1 {
      FirstSettingsAppend(rows[1..], extra);
    } else {
      assert rows[1..] + [extra] == [extra];
    }
  }
}
