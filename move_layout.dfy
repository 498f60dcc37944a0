/** app/components/move-layout.ts: the two request sequences that move a
    layout between windows. The platform runtime is not modelled; each
    request it receives is recorded, in the order issued, in the returned
    request list, and its answers are read from a `Platform` value. */
module MoveLayout {
  import opened Wrappers
  import opened TabSet

  /** A view handle, as returned by getCurrentViews. */
  type View(==, !new)

  /** A window's identity (fin.me.identity, or an attach target). */
  datatype Identity = Identity(uuid: string, name: string)

  /** Addresses one layout inside a window of an application. */
  datatype LayoutIdentity = LayoutIdentity(uuid: string, name: string, layoutName: string)

  datatype LayoutSnapshot = LayoutSnapshot(layouts: map<string, Config>)

  datatype WindowOptions = WindowOptions(layoutSnapshot: LayoutSnapshot, reason: string)

  /** The requests sent to the platform runtime. */
  datatype Request =
    | GetConfig(layout: LayoutIdentity)
    | GetCurrentViews(layout: LayoutIdentity)
    | Attach(view: View, target: Identity)
    | CreateWindow(options: WindowOptions)

  /** The platform's answers: a layout missing from `configs` or `views`
      rejects that request, a view in `rejectedAttaches` rejects its attach,
      and createWindow is rejected when `createWindowRejected` holds. */
  datatype Platform = Platform(
    configs: map<LayoutIdentity, Config>,
    views: map<LayoutIdentity, seq<View>>,
    rejectedAttaches: set<View>,
    createWindowRejected: bool)

  datatype Error =
    | CannotTransfer   // the guard refused the transfer
    | RequestFailed    // a platform request was rejected

  /** A transfer is refused for a layout that is already in the caller's
      window and for a layout of another application: it is allowed exactly
      from another window of the same application. */
  predicate TransferForbidden(me: Identity, layoutIdentity: LayoutIdentity)
    ensures !TransferForbidden(me, layoutIdentity) <==>
      layoutIdentity.uuid == me.uuid && layoutIdentity.name != me.name
  {
    layoutIdentity.name == me.name || layoutIdentity.uuid != me.uuid
  }

  /** The provider window of the caller's application: {uuid: me.uuid, name: me.uuid}. */
  function ProviderIdentity(me: Identity): (provider: Identity)
    ensures provider.uuid == me.uuid && provider.name == me.uuid
  {
    Identity(me.uuid, me.uuid)
  }

  /** The views named by the attach requests in `requests`, with multiplicity. */
  ghost function AttachedViews(requests: seq<Request>): multiset<View> {
    if requests == [] then multiset{}
    else
      var last := requests[|requests| - 1];
      AttachedViews(requests[..|requests| - 1]) + if last.Attach? then multiset{last.view} else multiset{}
  }

  /** AttachedViews counts the attaches of a concatenation part by part. */
  lemma {:induction false} AttachedViewsAppend(a: seq<Request>, b: seq<Request>)
    ensures AttachedViews(a + b) == AttachedViews(a) + AttachedViews(b)
  {
    if b != [] {
      var b' := b[..|b| - 1];
      assert (a + b)[..|a + b| - 1] == a + b';
      AttachedViewsAppend(a, b');
    } else {
      assert a + b == a;
    }
  }

  /** A list of attach requests, one per view in order, attaches every view
      exactly as often as it is listed. */
  lemma {:induction false} AttachedViewsOfAttaches(views: seq<View>, target: Identity, attaches: seq<Request>)
    requires |attaches| == |views|
    requires forall k :: 0 <= k < |attaches| ==> attaches[k] == Attach(views[k], target)
    ensures AttachedViews(attaches) == multiset(views)
  {
    if views != [] {
      var n := |views| - 1;
      AttachedViewsOfAttaches(views[..n], target, attaches[..n]);
      assert views == views[..n] + [views[n]];
    }
  }

  lemma {:induction false} AttachedViewsNone(requests: seq<Request>)
    requires forall k :: 0 <= k < |requests| ==> !requests[k].Attach?
    ensures AttachedViews(requests) == multiset{}
  {
    if requests != [] {
      AttachedViewsNone(requests[..|requests| - 1]);
    }
  }

  /** No attach of any of `views` is rejected. */
  ghost predicate AllAttachesAccepted(platform: Platform, views: seq<View>) {
    forall j :: 0 <= j < |views| ==> views[j] !in platform.rejectedAttaches
  }

  /** The request list of a transfer that got as far as the attaches: the
      config read, the views listing, then one attach per view. */
  lemma TransferRequestsShape(layoutIdentity: LayoutIdentity, views: seq<View>, target: Identity, attaches: seq<Request>)
    requires |attaches| == |views|
    requires forall k :: 0 <= k < |attaches| ==> attaches[k] == Attach(views[k], target)
    ensures var requests := [GetConfig(layoutIdentity), GetCurrentViews(layoutIdentity)] + attaches;
      && |requests| >= 2
      && requests[0] == GetConfig(layoutIdentity)
      && requests[1] == GetCurrentViews(layoutIdentity)
      && |requests| == 2 + |views|
      && (forall k :: 2 <= k < |requests| ==> requests[k] == Attach(views[k - 2], target))
      && (forall k :: 0 <= k < |requests| && requests[k].Attach? ==> k >= 2 && requests[k].target == target)
      && AttachedViews(requests) == multiset(views)
  {
    var prefix := [GetConfig(layoutIdentity), GetCurrentViews(layoutIdentity)];
    var requests := prefix + attaches;
    AttachedViewsOfAttaches(views, target, attaches);
    AttachedViewsAppend(prefix, attaches);
    AttachedViewsNone(prefix);
    forall k | 0 <= k < |requests| && requests[k].Attach?
      ensures k >= 2 && requests[k].target == target
    {
      if k >= 2 {
        assert requests[k] == attaches[k - 2];
      }
    }
  }

  /** layoutViews.map(v => v.attach(target)) under Promise.all: one attach
      request per view, in list order, all of them issued; the combined
      promise is rejected when any single attach is. */
  method AttachAll(platform: Platform, views: seq<View>, target: Identity)
    returns (anyRejected: bool, attaches: seq<Request>)
    ensures |attaches| == |views|
    ensures forall k :: 0 <= k < |attaches| ==> attaches[k] == Attach(views[k], target)
    ensures anyRejected <==> !AllAttachesAccepted(platform, views)
  {
    anyRejected := false;
    attaches := [];
    var i := 0;
    while i < |views|
      invariant 0 <= i <= |views|
      invariant |attaches| == i
      invariant forall k :: 0 <= k < i ==> attaches[k] == Attach(views[k], target)
      invariant anyRejected <==> exists j :: 0 <= j < i && views[j] in platform.rejectedAttaches
    {
      var v := views[i];
      attaches := attaches + [Attach(v, target)];
      if v in platform.rejectedAttaches {
        anyRejected := true;
      }
      i := i + 1;
    }
  }

  /** The transfer succeeds exactly when the guard passes and no request is
      rejected. */
  ghost predicate TransferSucceeds(platform: Platform, me: Identity, layoutIdentity: LayoutIdentity) {
    && !TransferForbidden(me, layoutIdentity)
    && layoutIdentity in platform.configs
    && layoutIdentity in platform.views
    && AllAttachesAccepted(platform, platform.views[layoutIdentity])
  }

  /** transferLayout: check the guard, read the donor layout's config, list
      its views, attach every view to the provider window, and return the
      config. */
  method TransferLayout(platform: Platform, me: Identity, layoutIdentity: LayoutIdentity)
    returns (r: Result<Config, Error>, requests: seq<Request>)
    // The guard: a layout already in the caller's window, or of another
    // application, is refused before any request is sent.
    ensures TransferForbidden(me, layoutIdentity) ==> r == Failure(CannotTransfer) && requests == []
    // Order: the config is read first, then the views are listed, then come the attaches.
    ensures !TransferForbidden(me, layoutIdentity) ==> |requests| >= 1 && requests[0] == GetConfig(layoutIdentity)
    ensures |requests| >= 2 ==> requests[1] == GetCurrentViews(layoutIdentity)
    ensures forall k :: 0 <= k < |requests| && requests[k].Attach? ==> k >= 2
    // Each attach goes to the provider window; each listed view is attached once.
    ensures forall k :: 0 <= k < |requests| && requests[k].Attach? ==> requests[k].target == ProviderIdentity(me)
    ensures |requests| >= 2 && layoutIdentity in platform.views ==>
      AttachedViews(requests) == multiset(platform.views[layoutIdentity])
    ensures !TransferForbidden(me, layoutIdentity) && layoutIdentity in platform.configs && layoutIdentity in platform.views ==>
      && |requests| == 2 + |platform.views[layoutIdentity]|
      && forall k :: 2 <= k < |requests| ==> requests[k] == Attach(platform.views[layoutIdentity][k - 2], ProviderIdentity(me))
    ensures !TransferForbidden(me, layoutIdentity) && layoutIdentity !in platform.configs ==> |requests| == 1
    ensures !TransferForbidden(me, layoutIdentity) && layoutIdentity in platform.configs && layoutIdentity !in platform.views ==>
      |requests| == 2
    // Success and the returned value.
    ensures r.Success? <==> TransferSucceeds(platform, me, layoutIdentity)
    ensures r.Success? ==> r.value == platform.configs[layoutIdentity]
    ensures r.Failure? && !TransferForbidden(me, layoutIdentity) ==> r.error == RequestFailed
  {
    if layoutIdentity.name == me.name || layoutIdentity.uuid != me.uuid {
      return Failure(CannotTransfer), [];
    }

    // The config is read before the layout is modified.
    if layoutIdentity !in platform.configs {
      return Failure(RequestFailed), [GetConfig(layoutIdentity)];
    }
    var layout := platform.configs[layoutIdentity];

    var providerIdentity := ProviderIdentity(me);

    var prefix := [GetConfig(layoutIdentity), GetCurrentViews(layoutIdentity)];
    if layoutIdentity !in platform.views {
      return Failure(RequestFailed), prefix;
    }
    var layoutViews := platform.views[layoutIdentity];

    var anyRejected, attaches := AttachAll(platform, layoutViews, providerIdentity);
    TransferRequestsShape(layoutIdentity, layoutViews, providerIdentity, attaches);
    requests := prefix + attaches;
    if anyRejected {
      return Failure(RequestFailed), requests;
    }
    return Success(layout), requests;
  }

  /** The snapshot a torn-out layout is opened with: just that layout. */
  function TearoutSnapshot(layoutName: string, config: Config): (snapshot: LayoutSnapshot)
    ensures snapshot.layouts.Keys == {layoutName}
    ensures snapshot.layouts[layoutName] == config
  {
    LayoutSnapshot(map[layoutName := config])
  }

  /** tearoutLayout: read the layout's config, then ask for a new window whose
      snapshot holds only that layout, with reason "tearout". */
  method TearoutLayout(platform: Platform, layoutIdentity: LayoutIdentity)
    returns (r: Result<(), Error>, requests: seq<Request>)
    ensures 1 <= |requests| <= 2 && requests[0] == GetConfig(layoutIdentity)
    ensures |requests| == 2 <==> layoutIdentity in platform.configs
    ensures |requests| == 2 ==>
      && requests[1].CreateWindow?
      && requests[1].options.reason == "tearout"
      && requests[1].options.layoutSnapshot.layouts.Keys == {layoutIdentity.layoutName}
      && requests[1].options.layoutSnapshot.layouts[layoutIdentity.layoutName] == platform.configs[layoutIdentity]
    ensures r.Success? <==> layoutIdentity in platform.configs && !platform.createWindowRejected
    ensures r.Failure? ==> r.error == RequestFailed
  {
    requests := [GetConfig(layoutIdentity)];
    if layoutIdentity !in platform.configs {
      return Failure(RequestFailed), requests;
    }
    var layoutSnapshot := TearoutSnapshot(layoutIdentity.layoutName, platform.configs[layoutIdentity]);

    requests := requests + [CreateWindow(WindowOptions(layoutSnapshot, "tearout"))];
    if platform.createWindowRejected {
      return Failure(RequestFailed), requests;
    }
    return Success(()), requests;
  }
}
