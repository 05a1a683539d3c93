/** What the configuration functions promise their caller. */
module KcpSettings {
  import opened SeqNum
  import opened KcpSpec

  /** What a call says about a value: nothing, or a number to take over. */
  datatype Wish = Silent | Wish(n: int)

  function Positive(n: i32): Wish { if n > 0 then Wish(n) else Silent }

  function Given(n: i32): Wish { if n >= 0 then Wish(n) else Silent }

  /** A value taken over as it is while it lies within bounds, and otherwise brought to the nearer one. */
  predicate Follows(was: int, now: int, wish: Wish, low: int, high: int) {
    match wish
    case Silent => now == was
    case Wish(n) =>
      && low <= now <= high && (low <= n <= high ==> now == n)
      && (n > high ==> now == high) && (n < low ==> now == low)
  }

  /** The wishes that a call carries, for the interval, the no-delay mode, the threshold of fast retransmission,
      the switch of the congestion window, and the two windows. */
  function IntervalWish(s: Setting): Wish {
    match s
    case SetInterval(interval) => Wish(interval)
    case SetNodelay(_, interval, _, _) => Given(interval)
    case _ => Silent
  }

  function ModeWish(s: Setting): Wish { if s.SetNodelay? then Given(s.nodelay) else Silent }

  function ResendWish(s: Setting): Wish { if s.SetNodelay? then Given(s.resend) else Silent }

  function SwitchWish(s: Setting): Wish { if s.SetNodelay? then Given(s.nc) else Silent }

  function SendWish(s: Setting): Wish { if s.SetWnd? then Positive(s.snd) else Silent }

  function ReceiveWish(s: Setting): Wish { if s.SetWnd? then Positive(s.rcv) else Silent }

  function MtuWish(s: Setting): Wish { if s.SetMtu? && s.mtu >= 50 then Wish(s.mtu) else Silent }

  /** Every value follows the wish for it and no other: the interval within 10 and 5000 ms, the receive window
      from 128 on; the smallest timeout is 30 ms in a no-delay mode and 100 ms in the normal one. */
  ghost predicate Followed(cfg: Config, s: Setting, c: Config) {
    && Follows(cfg.interval, c.interval, IntervalWish(s), 10, 5000)
    && Follows(cfg.nodelay, c.nodelay, ModeWish(s), 0, HALF - 1)
    && Follows(cfg.fastresend, c.fastresend, ResendWish(s), 0, HALF - 1)
    && Follows(cfg.nocwnd, c.nocwnd, SwitchWish(s), 0, HALF - 1)
    && Follows(cfg.sndWnd, c.sndWnd, SendWish(s), 1, HALF - 1)
    && Follows(cfg.rcvWnd, c.rcvWnd, ReceiveWish(s), 128, HALF - 1)
    && Follows(cfg.mtu, c.mtu, MtuWish(s), 50, HALF - 1)
    && c.minrto == (if ModeWish(s).Silent? then cfg.minrto else if c.nodelay == 0 then 100 else 30)
    && c.conv == cfg.conv && c.fastlimit == cfg.fastlimit && c.deadLink == cfg.deadLink
    && c.stream == if s.SetStream? then s.stream else cfg.stream
  }

  lemma Word(n: i32)
    requires n >= 0
    ensures U32(n) == n
  {}

  lemma NodelayFollows(cfg: Config, s: Setting)
    requires s.SetNodelay?
    ensures Followed(cfg, s, Configure(cfg, s))
  {
    hide U32;
    if s.nodelay >= 0 {
      Word(s.nodelay);
    }
  }

  lemma SettingsFollow(cfg: Config, s: Setting)
    ensures Followed(cfg, s, Configure(cfg, s))
  {
    hide U32;
    match s
    case SetMtu(_) =>
    case SetInterval(_) =>
    case SetNodelay(_, _, _, _) => NodelayFollows(cfg, s);
    case SetWnd(snd, rcv) =>
      if snd > 0 { Word(snd); }
      if rcv > 0 { Word(rcv); }
    case SetStream(_) =>
  }
}
