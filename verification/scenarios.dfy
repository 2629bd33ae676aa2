/** Concrete end-to-end runs of the pool and the registry. */
module Scenarios {
  import opened Wrappers
  import Channels
  import Manager

  /** Three distinct hosts appended to a fresh pool are handed out in the
      cyclic order A, B, C, A. */
  lemma ThreeHostsCycle(name: string, hostA: string, hostB: string, hostC: string)
    requires hostA != hostB && hostB != hostC && hostA != hostC
    ensures var a, b, d := Channels.Handle(0), Channels.Handle(1), Channels.Handle(2);
            var c := Channels.Append(Channels.Append(Channels.Append(
                       Channels.NewServiceChannel(name), hostA, a, true), hostB, b, true), hostC, d, true);
            && c.hosts == map[hostA := a, hostB := b, hostC := d]
            && Channels.ChooseRun(c, 4).picks == [Some(a), Some(b), Some(d), Some(a)]
  {
    var a, b, d := Channels.Handle(0), Channels.Handle(1), Channels.Handle(2);
    var c1 := Channels.Append(Channels.NewServiceChannel(name), hostA, a, true);
    var c2 := Channels.Append(c1, hostB, b, true);
    var c := Channels.Append(c2, hostC, d, true);
    assert c.channels == [a, b, d];
    FourPicksOfThree(c);
  }

  lemma FourPicksOfThree(c: Channels.ServiceChannel)
    requires |c.channels| == 3 && c.index == 0
    ensures Channels.ChooseRun(c, 4).picks
              == [Some(c.channels[0]), Some(c.channels[1]), Some(c.channels[2]), Some(c.channels[0])]
  {
    Channels.RoundRobin(c, 4);
    var ps := Channels.ChooseRun(c, 4).picks;
    assert ps[0] == Some(c.channels[0 % 3]);
    assert ps[1] == Some(c.channels[1 % 3]);
    assert ps[2] == Some(c.channels[2 % 3]);
    assert ps[3] == Some(c.channels[3 % 3]);
  }

  /** After declaring "chat", an online event for "chat/node-1" makes
      selection for "chat" return the channel of that instance's host. */
  lemma DeclaredServiceIsSelectable()
    ensures var m := Manager.OnServiceOnline(
                       Manager.Declared(Manager.NewServiceManager(), "chat"),
                       "chat/node-1", "10.0.0.1:9000", true);
            && "chat" in m.services
            && "10.0.0.1:9000" in m.services["chat"].hosts
            && Manager.Choose(m, "chat").handle == Some(m.services["chat"].hosts["10.0.0.1:9000"])
  {
    Manager.ServiceNameOfInstance("chat", "node-1");
    assert "chat/node-1" == "chat" + "/" + "node-1";
  }

  /** An online event for a service nobody declared leaves selection for it
      at none. */
  lemma UndeclaredServiceIsIgnored()
    ensures var m := Manager.OnServiceOnline(
                       Manager.Declared(Manager.NewServiceManager(), "chat"),
                       "other/node-1", "10.0.0.2:9000", true);
            Manager.Choose(m, "other").handle == None
  {
    Manager.ServiceNameOfInstance("other", "node-1");
    assert "other/node-1" == "other" + "/" + "node-1";
  }

  /** An instance that joins and then leaves leaves its service with no
      selectable channel. */
  lemma JoinThenLeave()
    ensures var m0 := Manager.Declared(Manager.NewServiceManager(), "chat");
            var m1 := Manager.OnServiceOnline(m0, "chat/node-1", "10.0.0.1:9000", true);
            var m2 := Manager.OnServiceOffline(m1, "chat/node-1", "10.0.0.1:9000");
            Manager.Choose(m2, "chat").handle == None
  {
    Manager.ServiceNameOfInstance("chat", "node-1");
    assert "chat/node-1" == "chat" + "/" + "node-1";
    var m0 := Manager.Declared(Manager.NewServiceManager(), "chat");
    var m1 := Manager.OnServiceOnline(m0, "chat/node-1", "10.0.0.1:9000", true);
    assert m1.services["chat"].channels == [Channels.Handle(0)];
    assert Channels.IndexOf(m1.services["chat"].channels, Channels.Handle(0)) == 0;
  }
}
