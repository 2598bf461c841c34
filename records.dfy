/**
 * The two record collections the service searches: user accounts (joined with
 * their transport row) and mail aliases, the reshaped user view returned to
 * clients, and the labelled text each record is embedded from.
 */
module Records {

  /** A live row of `users` joined with its `transports` row (main.py:35-38). */
  datatype UserRow = UserRow(
    id: int,
    userid: string,
    login: string,
    email: string,
    maildir: string,
    identificacion: string,
    grupo: string,
    dominio: int,        // foreign key to transports.id
    quota: int,
    transportId: int,
    domain: string,
    transport: string)

  /** A live row of `aliases` (main.py:56-57). */
  datatype AliasRow = AliasRow(id: int, local: string, remoto: string)

  /** The nested transport object of a formatted user. */
  datatype TransportView = TransportView(id: int, domain: string, transport: string)

  /** A user as returned by /buscar_user. */
  datatype UserView = UserView(
    id: int,
    userid: string,
    login: string,
    email: string,
    maildir: string,
    identificacion: string,
    grupo: string,
    dominio: int,
    quota: int,
    transport: TransportView)

  function UserId(u: UserRow): int { u.id }

  function AliasId(a: AliasRow): int { a.id }

  /** The flat row a view was made from: the inverse of FormatUser. */
  function Flatten(v: UserView): UserRow
  {
    UserRow(v.id, v.userid, v.login, v.email, v.maildir, v.identificacion, v.grupo,
            v.dominio, v.quota, v.transport.id, v.transport.domain, v.transport.transport)
  }

  /** formatear_usuario: nest the three transport columns, keep every other field. */
  function FormatUser(u: UserRow): (v: UserView)
    ensures Flatten(v) == u
  {
    UserView(u.id, u.userid, u.login, u.email, u.maildir, u.identificacion, u.grupo,
             u.dominio, u.quota, TransportView(u.transportId, u.domain, u.transport))
  }

  /** `[formatear_usuario(u) for u in data]`: each row reshaped, in order. */
  function FormatAll(rows: seq<UserRow>): (views: seq<UserView>)
    ensures |views| == |rows|
    ensures forall k :: 0 <= k < |rows| ==> Flatten(views[k]) == rows[k]
  {
    seq(|rows|, k requires 0 <= k < |rows| => FormatUser(rows[k]))
  }

  /** Reshaping loses nothing: distinct rows give distinct views. */
  lemma FormatUserInjective(a: UserRow, b: UserRow)
    ensures FormatUser(a) == FormatUser(b) ==> a == b
  {
    if FormatUser(a) == FormatUser(b) {
      calc {
        a;
        Flatten(FormatUser(a));
        Flatten(FormatUser(b));
        b;
      }
    }
  }

  // ---------------------------------------------------------------------------
  // Decimal rendering of ids, as Python's str() of an int.

  predicate IsDigit(c: char) { '0' <= c <= '9' }

  predicate AllDigits(s: string) { forall k :: 0 <= k < |s| ==> IsDigit(s[k]) }

  function DigitChar(d: nat): (c: char)
    requires d < 10
    ensures IsDigit(c) && c as int - '0' as int == d
  {
    (d + '0' as int) as char
  }

  /** The shortest decimal numeral of n. */
  function NatText(n: nat): (s: string)
    ensures |s| >= 1 && AllDigits(s)
    ensures n > 0 ==> s[0] != '0'
    ensures n == 0 ==> s == "0"
  {
    if n < 10 then [DigitChar(n)] else NatText(n / 10) + [DigitChar(n % 10)]
  }

  /** str(n) for a Python int: a minus sign before negative numbers. */
  function IntText(n: int): (s: string)
    ensures |s| >= 1 && ' ' !in s
    ensures n >= 0 ==> AllDigits(s) && (|s| > 1 ==> s[0] != '0')
    ensures n < 0 ==> |s| >= 2 && s[0] == '-' && AllDigits(s[1..]) && s[1] != '0'
  {
    if n < 0 then "-" + NatText(-n) else NatText(n)
  }

  function ParseNat(s: string): nat
    requires AllDigits(s)
  {
    if s == [] then 0 else ParseNat(s[..|s| - 1]) * 10 + (s[|s| - 1] as int - '0' as int)
  }

  function ParseInt(s: string): int
  {
    if |s| > 0 && s[0] == '-' && AllDigits(s[1..]) then 0 - ParseNat(s[1..])
    else if AllDigits(s) then ParseNat(s)
    else 0
  }

  lemma {:induction false} ParseNatText(n: nat)
    ensures ParseNat(NatText(n)) == n
  {
    if n >= 10 {
      var s := NatText(n);
      assert s[..|s| - 1] == NatText(n / 10);
      ParseNatText(n / 10);
    }
  }

  /** Rendering an id and reading it back gives the id: the rendering is injective. */
  lemma ParseIntText(n: int)
    ensures ParseInt(IntText(n)) == n
  {
    ParseNatText(if n < 0 then -n else n);
    if n < 0 {
      assert IntText(n)[1..] == NatText(-n);
    } else {
      assert IntText(n)[0] != '-';
    }
  }

  // ---------------------------------------------------------------------------
  // Labelled texts (the corpus entries).

  /** Everything after the id in a user's labelled text. */
  function UserTail(u: UserRow): string
  {
    " Login: " + u.login + " Email: " + u.email + " Maildir: " + u.maildir
    + " Identificacion: " + u.identificacion + " Grupo: " + u.grupo
    + " Dominio: " + u.domain + " Transport: " + u.transport
  }

  /** The text a user is embedded from. */
  function UserText(u: UserRow): (t: string)
    ensures var n := |IntText(u.id)|; |t| > 4 + n && t[..4] == "ID: " && t[4..4 + n] == IntText(u.id) && t[4 + n] == ' '
    ensures |t| >= |u.transport| && t[|t| - |u.transport|..] == u.transport
  {
    "ID: " + IntText(u.id) + UserTail(u)
  }

  function AliasTail(a: AliasRow): string
  {
    " Local: " + a.local + " Remoto: " + a.remoto
  }

  /** The text an alias is embedded from. */
  function AliasText(a: AliasRow): (t: string)
    ensures var n := |IntText(a.id)|; |t| > 4 + n && t[..4] == "ID: " && t[4..4 + n] == IntText(a.id) && t[4 + n] == ' '
    ensures |t| >= |a.remoto| && t[|t| - |a.remoto|..] == a.remoto
  {
    "ID: " + IntText(a.id) + AliasTail(a)
  }

  /** Two space-free words each followed by a space-led tail can only be split one way. */
  lemma WordBeforeSpace(x: string, p: string, y: string, q: string)
    requires ' ' !in x && ' ' !in y
    requires |p| > 0 && p[0] == ' ' && |q| > 0 && q[0] == ' '
    requires x + p == y + q
    ensures x == y
  {
    var k := if |x| < |y| then |x| else |y|;
    assert (x + p)[k] == (y + q)[k];
    assert x == (x + p)[..|x|];
  }

  lemma DropLabel(x: string, tail: string)
    ensures ("ID: " + x + tail)[4..] == x + tail
  {
  }

  /** The labelled text `"ID: " + id + " ..."` determines the id it carries. */
  lemma LabelledTextDeterminesId(i: int, tail: string, j: int, tail': string)
    requires |tail| > 0 && tail[0] == ' ' && |tail'| > 0 && tail'[0] == ' '
    requires "ID: " + IntText(i) + tail == "ID: " + IntText(j) + tail'
    ensures i == j
  {
    DropLabel(IntText(i), tail);
    DropLabel(IntText(j), tail');
    WordBeforeSpace(IntText(i), tail, IntText(j), tail');
    ParseIntText(i);
    ParseIntText(j);
  }

  /** Users whose texts coincide share an id. */
  lemma UserTextDeterminesId(a: UserRow, b: UserRow)
    requires UserText(a) == UserText(b)
    ensures a.id == b.id
  {
    LabelledTextDeterminesId(a.id, UserTail(a), b.id, UserTail(b));
  }

  /** Aliases whose texts coincide share an id. */
  lemma AliasTextDeterminesId(a: AliasRow, b: AliasRow)
    requires AliasText(a) == AliasText(b)
    ensures a.id == b.id
  {
    LabelledTextDeterminesId(a.id, AliasTail(a), b.id, AliasTail(b));
  }
}
