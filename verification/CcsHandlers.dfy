/** The arms of `handle_stream` as they act on the shared registry: one method
    for each stretch of code between taking the lock and releasing it. */
module CcsHandlers {
  import opened Wrappers
  import opened RegistryState
  import opened CcsServer
  import RegistryServer
  import R = RegistryRuns
  import Acl
  import opened PeerLists

  /** The store after the registry operation `op` at time `clock`. */
  function StoreAfter(s: Store, op: R.Op, clock: Clock): Store {
    R.Next(R.Sys(s, clock, map[], 0), op).store
  }

  /** Every request but an ACL change or a listing is handled under one locking, and
      nothing comes between. */
  method Respond(reg: RegistryServer.Registry, msg: Message, choice: Choice, clock: Clock, relayAddr: string)
    returns (response: Response)
    requires reg.Valid() && !msg.AclChange? && !ReadsAcl(msg)
    modifies reg
    ensures reg.Valid()
    ensures response == Answer(old(reg.View()), msg, choice, relayAddr)
    ensures reg.View() == StoreAfter(old(reg.View()), Effect(old(reg.View()), msg, choice), clock)
  {
    response := Pong;
    match msg {
      case Register(name, publicKey) =>
        var granted := reg.Register(Registration(choice.id, choice.token, name, publicKey), clock, choice.ok);
        response := if granted.Some? then RegisterOk(granted.value) else Failed;
      case UpdateEndpoint(id, token, endpoint) =>
        var valid := reg.ValidateSession(id, token);
        if valid {
          reg.UpdateEndpoint(id, endpoint, clock, choice.ok);
        }
      case RequestRelay(id, token, targetId) =>
        var valid := reg.ValidateSession(id, token);
        if valid {
          response := RelayAssigned(relayAddr, targetId);
        }
      case Ping(id, token) =>
        var valid := reg.ValidateSession(id, token);
        if valid {
          reg.Heartbeat(id, clock, choice.ok);
        }
      case Other =>
    }
  }

  /** A peer list, while the dashboard writes what `dashboard` says before each
      locking of the database. */
  method RespondPeers(reg: RegistryServer.Registry, id: Id, token: string, dashboard: nat -> seq<Acl.Change>)
    returns (response: Response, ghost order: seq<Id>)
    requires reg.Valid()
    modifies reg`db
    ensures reg.Valid()
    ensures Lists(order, reg.nodes.Keys)
    ensures response ==
            if !ValidSession(old(reg.View()), id, token) then Pong
            else PeerList(Infos(reg.nodes, Seen(ReadsOf(old(reg.db).acl, dashboard, order), reg.nodes.Keys, id)))
  {
    response := Pong;
    var valid := reg.ValidateSession(id, token);
    if valid {
      var peers;
      peers, order := reg.GetPeers(Some(id), dashboard);
      response := PeerList(set p | p in peers);
    } else {
      SomeOrder(reg.nodes.Keys, None);
      order :| Lists(order, reg.nodes.Keys);
    }
  }

  /** A listing of the ACL, while the dashboard writes `between` its two reads. */
  method RespondAcl(reg: RegistryServer.Registry, id: Id, token: string, between: seq<Acl.Change>)
    returns (response: Response)
    requires reg.Valid()
    modifies reg`db
    ensures reg.Valid()
    ensures response ==
            if !ValidSession(old(reg.View()), id, token) then Pong
            else AclListing(Acl.Tables(old(reg.db).acl.groups, Acl.ApplyAll(old(reg.db).acl, between).rules))
  {
    response := Pong;
    var valid := reg.ValidateSession(id, token);
    if valid {
      var tables := reg.ListAcl(between);
      response := AclListing(tables);
    }
  }

  /** An ACL change, first locking: validate only. */
  method ValidateChange(reg: RegistryServer.Registry, msg: Message) returns (next: Stream)
    requires msg.AclChange?
    ensures next == if ValidSession(reg.View(), msg.id, msg.token) then Approved(msg) else Answered(Pong)
  {
    var valid := reg.ValidateSession(msg.id, msg.token);
    next := if valid then Approved(msg) else Answered(Pong);
  }

  /** An ACL change, second locking: apply it without asking again. */
  method ApplyChange(reg: RegistryServer.Registry, msg: Message, ok: bool, clock: Clock) returns (next: Stream)
    requires reg.Valid() && msg.AclChange?
    modifies reg
    ensures reg.Valid()
    ensures next == Answered(Pong)
    ensures reg.View() == StoreAfter(old(reg.View()), R.ChangeAcl(msg.change, ok), clock)
  {
    reg.ChangeAcl(msg.change, ok);
    next := Answered(Pong);
  }
}
