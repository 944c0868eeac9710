/** What the log gets of a message in bytes. */
module TtlvLog {
  import opened Prelude
  import opened Ttlv
  import opened Printing
  import opened Formatter
  import TtlvCodec

  function Trailing(n: nat): string {
    if n == 0 then "" else "Trailing bytes: " + (Decimal(n) + "\n")
  }

  /** The text of some bytes, if they are a message; a message that cannot be parsed
      is replaced by one about the exception. */
  ghost function TtlvText(tables: Tables, ttlv: seq<byte>): Option<string> {
    if ttlv == [] then Some("<empty KMIP TTLV>\n")
    else
      var root := TtlvCodec.Decode(ttlv, 0);
      if root.None? then None
      else Some(Format(tables, root.value, 0) + Trailing(LeftBehind(ttlv, root.value)))
  }

  ghost function LeftBehind(ttlv: seq<byte>, root: Element): nat {
    if |Encode(root)| <= |ttlv| then |ttlv| - |Encode(root)| else 0
  }

  method FormatTtlv(tables: Tables, ttlv: seq<byte>) returns (r: Option<string>)
    ensures r == TtlvText(tables, ttlv)
  {
    if ttlv == [] {
      return Some("<empty KMIP TTLV>\n");
    }
    var root, offset := TtlvCodec.Deserialize(ttlv, 0);
    if root.Err? {
      return None;
    }
    var formatted := FormatElement(tables, root.value, "", 0);
    Nothing(Format(tables, root.value, 0));
    if offset != |ttlv| {
      return Some(formatted + ("Trailing bytes: " + (Decimal(|ttlv| - offset) + "\n")));
    }
    return Some(formatted);
  }

  lemma TrailingSame(m: nat, n: nat)
    requires Trailing(m) == Trailing(n)
    ensures m == n
  {
    if m != 0 && n != 0 {
      Behind("Trailing bytes: ", Decimal(m) + "\n", Decimal(n) + "\n");
      NumberSame(m, "\n", n, "\n");
    }
  }

  lemma TrailingShallow(n: nat)
    ensures Shallow(Trailing(n), 1)
  {
    assert n != 0 ==> Trailing(n)[0] == 'T';
  }

  /** Two messages have the same text exactly when their trees are shown as the same
      and as many bytes are left behind them. */
  lemma SameLog(tables: Tables, x: seq<byte>, y: seq<byte>)
    requires Proper(tables) && x != [] && y != []
    requires TtlvCodec.Decode(x, 0).Some? && TtlvCodec.Decode(y, 0).Some?
    ensures var a, b := TtlvCodec.Decode(x, 0).value, TtlvCodec.Decode(y, 0).value;
            TtlvText(tables, x) == TtlvText(tables, y) <==>
            Shown(a) == Shown(b) && LeftBehind(x, a) == LeftBehind(y, b)
  {
    var a, b := TtlvCodec.Decode(x, 0).value, TtlvCodec.Decode(y, 0).value;
    FormatShown(tables, a, 0);
    FormatShown(tables, b, 0);
    if TtlvText(tables, x) == TtlvText(tables, y) {
      TrailingShallow(LeftBehind(x, a));
      TrailingShallow(LeftBehind(y, b));
      FormatSame(tables, a, b, 0, Trailing(LeftBehind(x, a)), Trailing(LeftBehind(y, b)));
      TrailingSame(LeftBehind(x, a), LeftBehind(y, b));
    }
  }
}
