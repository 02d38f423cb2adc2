/**
 The author and committer lines of a commit: a user, a timestamp and a time zone, found from
 the end of the line because the user may be anything, and printed for a user that cannot be
 taken for more than its line.
 */
module UserLines {
  import opened ByteStrings
  import opened Common
  import opened Numerals
  import opened Zones


  datatype UserLine = UserLine(user: seq<byte>, time: Time, tail: seq<byte>)

  /** consumeUser: the fields are found from the end of the line, as the user may be anything. */
  function ParseUser(src: seq<byte>): (u: Option<UserLine>)
    ensures u.Some? ==> |u.value.tail| < |src|
  {
    match Cut(src, NL)
    case None => None
    case Some(f) => ParseFields(f.before, f.after)
  }

  function ParseFields(line: seq<byte>, tail: seq<byte>): (u: Option<UserLine>)
    ensures u.Some? ==> u.value.tail == tail
  {
    match LastCut(line, SP)
    case None => None
    case Some(z) =>
      match LastCut(z.before, SP)
      case None => None
      case Some(t) =>
        match ParseInt(t.after)
        case None => None
        case Some(unix) =>
          match ParseZone(z.after)
          case None => None
          case Some(offset) => Some(UserLine(t.before, Time(unix, z.after, offset), tail))
  }

  /** isSafeForHeader. */
  predicate Safe(s: seq<byte>) {
    0 !in s && NL !in s
  }

  /** A user line behind its name, as writeUser prints it for a safe user. */
  function UserText(user: seq<byte>, t: Time): seq<byte> {
    user + ([SP] + (PrintInt(t.unix) + ([SP] + (ZoneText(t) + [NL]))))
  }

  lemma NumberPlain(n: int)
    requires Int64(n)
    ensures NL !in PrintInt(n) && SP !in PrintInt(n)
  {
    ParsePrintedInt(n);
  }

  lemma ZonePlain(t: Time)
    ensures NL !in ZoneText(t) && SP !in ZoneText(t)
  {
    TextPlain(t);
  }

  lemma UserSplit(user: seq<byte>, t: Time, rest: seq<byte>)
    ensures UserText(user, t) + rest ==
      (user + ([SP] + (PrintInt(t.unix) + ([SP] + ZoneText(t))))) + ([NL] + rest)
  {
    hide PrintInt, ZoneText;
    var z, n := ZoneText(t), PrintInt(t.unix);
    Regroup(z, [NL], rest);
    Regroup([SP], z, [NL]);
    Regroup(n, [SP] + z, [NL]);
    Regroup([SP], n + ([SP] + z), [NL]);
    Regroup(user, [SP] + (n + ([SP] + z)), [NL]);
    Regroup(user + ([SP] + (n + ([SP] + z))), [NL], rest);
  }

  lemma LinePlain(user: seq<byte>, n: seq<byte>, z: seq<byte>)
    requires NL !in user && NL !in n && NL !in z
    ensures NL !in user + ([SP] + (n + ([SP] + z)))
  {
  }

  lemma LineFields(user: seq<byte>, n: seq<byte>, z: seq<byte>)
    requires SP !in n && SP !in z
    ensures var line := user + ([SP] + (n + ([SP] + z)));
      && LastCut(line, SP) == Some(Field(user + ([SP] + n), z))
      && LastCut(user + ([SP] + n), SP) == Some(Field(user, n))
  {
    Regroup([SP], n, [SP] + z);
    Regroup(user, [SP] + n, [SP] + z);
    LastCutField(user + ([SP] + n), SP, z);
    LastCutField(user, SP, n);
  }

  /** A printed line is read back with its normal time, unless the zone does not fit its text. */
  lemma ParsePrintedUser(user: seq<byte>, t: Time, rest: seq<byte>)
    requires Safe(user) && Int64(t.unix)
    ensures ParseUser(UserText(user, t) + rest) ==
      if ZoneFits(t) then Some(UserLine(user, NormalTime(t), rest)) else None
  {
    hide PrintInt, ZoneText, ParseInt, ParseZone, NormalTime, ZoneFits, Cut, LastCut, UserText;
    var z, n := ZoneText(t), PrintInt(t.unix);
    NumberPlain(t.unix);
    ZonePlain(t);
    UserSplit(user, t, rest);
    LinePlain(user, n, z);
    CutField(user + ([SP] + (n + ([SP] + z))), NL, rest);
    LineFields(user, n, z);
    ParsePrintedInt(t.unix);
    TextParses(t);
  }

  /** The timestamp of a user line. */
  function TimestampText(src: seq<byte>): seq<byte>
    requires ParseUser(src).Some?
  {
    LastCut(LastCut(Cut(src, NL).value.before, SP).value.before, SP).value.after
  }

  /** A line read prints as the same bytes exactly when its timestamp is canonical. */
  lemma PrintParsedUser(src: seq<byte>)
    requires ParseUser(src).Some?
    ensures var u := ParseUser(src).value;
      && NL !in u.user && Int64(u.time.unix) && NamesOffset(u.time)
      && (UserText(u.user, u.time) + u.tail == src <==> CanonicalInt(TimestampText(src)))
  {
    hide PrintInt, ParseInt, ParseZone, CanonicalInt, UserText;
    var u := ParseUser(src).value;
    var f := Cut(src, NL).value;
    var z := LastCut(f.before, SP).value;
    var n := LastCut(z.before, SP).value;
    assert n.after == TimestampText(src);
    PrintParsedInt(n.after);
    UserSplit(u.user, u.time, u.tail);
    assert z.before == u.user + ([SP] + n.after);
    Regroup(u.user, [SP] + n.after, [SP] + z.after);
    Regroup([SP], n.after, [SP] + z.after);
    assert src == (u.user + ([SP] + (n.after + ([SP] + z.after)))) + ([NL] + u.tail);
    SameMiddle(u.user + [SP], n.after, PrintInt(u.time.unix), ([SP] + z.after) + ([NL] + u.tail));
    Middle(u.user, n.after, z.after, u.tail);
    Middle(u.user, PrintInt(u.time.unix), z.after, u.tail);
    assert u.time.zone == z.after && ZoneText(u.time) == z.after;
    assert NL !in u.user;
  }

  lemma Middle(user: seq<byte>, n: seq<byte>, z: seq<byte>, tail: seq<byte>)
    ensures (user + ([SP] + (n + ([SP] + z)))) + ([NL] + tail) == (user + [SP]) + (n + (([SP] + z) + ([NL] + tail)))
  {
    Regroup(user, [SP], n + ([SP] + z));
    Regroup(user + [SP], n + ([SP] + z), [NL] + tail);
    Regroup(n, [SP] + z, [NL] + tail);
  }

  lemma SameMiddle(a: seq<byte>, x: seq<byte>, y: seq<byte>, b: seq<byte>)
    ensures a + (x + b) == a + (y + b) <==> x == y
  {
    if a + (x + b) == a + (y + b) {
      assert |x| == |y|;
      assert x == (a + (x + b))[|a|..|a| + |x|];
      assert y == (a + (y + b))[|a|..|a| + |y|];
    }
  }

  /** writeUser. */
  function WriteUser(name: seq<byte>, user: seq<byte>, t: Time): Option<seq<byte>> {
    if Safe(user) then Some(name + UserText(user, t)) else None
  }
}
