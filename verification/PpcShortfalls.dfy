/** One input each on which the register tracker's claims fail; PpcBranches says exactly when they do. */
module PpcShortfalls {
  import opened Wrappers
  import opened Words
  import opened PpcMachine
  import opened PpcVm
  import opened PpcBranches

  const ORIGIN := SectionAddress(0, 0)
  /** Every address is in section 0, and nothing is relocated. */
  const SITE := Site(ORIGIN, None, _ => Some(0))
  const TABLE: Word := 0x8000_0000

  /** Nothing is known but what `known` says. */
  function Knowing(known: Reg -> GprValue): (s: State)
    ensures s.Valid() && forall r: Reg :: s.gpr[r] == Direct(known(r))
  {
    State(seq(32, r requires 0 <= r < 32 => Direct(known(r))), seq(8, _ => Cr(Unknown, Unknown, false)), Unknown,
          Unknown)
  }

  function Holding(held: Reg -> Word, flags: Flags): (m: Machine)
    ensures m.Valid() && m.cr[0] == flags && forall r: Reg :: m.gpr[r] == held(r)
  {
    Machine(seq(32, r requires 0 <= r < 32 => held(r)), seq(8, _ => flags), 0, 0, _ => 0, _ => 0)
  }

  /** `cmpwi r3, 1; blt` with -1 in r3: the branch is taken, and the tracker claims that r3 is at most 0. */
  lemma SignedEdgeFails() returns (s: State, m: Machine, m': Machine)
    ensures Sound(s, m) && m.gpr[3] == MAX && Executes(Cmpi(0, 3, 1), m, m') && Taken(12, 0, m')
    ensures !Sound(Edge(Transfer(s, SITE, Cmpi(0, 3, 1)), 12, 0, true), m')
  {
    s := Knowing(_ => Unknown);
    m := Holding(_ => MAX, Flags(true, false, false));
    m' := m;
    SignedEdgeIff(s, SITE, Cmpi(0, 3, 1), m, m', 12, 0, 1);
  }

  /** `cmplwi r3, 0; bgt` not taken: the table has one entry, and the tracker gives it no size. */
  lemma SizeFails()
    ensures var s := Knowing(r => if r == 6 then Constant(TABLE) else Unknown);
            BranchToCtr(AfterIdiom(s, SITE, Cmpli(0, 3, 0), 3, 4, 6, 5), SITE)
            != JumpTable(Address(SectionAddress(0, TABLE)), Some(4))
  {
    var s := Knowing(r => if r == 6 then Constant(TABLE) else Unknown);
    IdiomSize(s, SITE, Cmpli(0, 3, 0), 3, 4, 6, 5, 0, Address(SectionAddress(0, TABLE)));
  }

  /** The table's address is in r0, and the index, 1, in r3. */
  function ZeroBased(): (m: Machine)
    ensures m.Valid() && m.gpr[0] == TABLE && m.gpr[3] == 1
  {
    Holding(r => if r == 0 then TABLE else if r == 3 then 1 else 0, Flags(true, false, false))
  }

  /** `lwzx r5, r0, r4` with the table's address in r0: what is loaded is the word at address 4. */
  lemma ZeroBaseFails() returns (m2: Machine, m3: Machine, m4: Machine)
    ensures var m := ZeroBased();
            && Executes(Cmpli(0, 3, 7), m, m) && !Taken(12, 1, m) && Executes(Rlwinm(4, 3, 2, 0, 29, false), m, m2)
            && Executes(Lwzx(5, 0, 4), m2, m3) && Executes(Mtspr(9, 5), m3, m4)
            && m4.ctr == m2.word(4)
  {
    var m := ZeroBased();
    m2 := m.(gpr := m.gpr[4 := Written(Rlwinm(4, 3, 2, 0, 29, false), m).2]);
    m3 := m2.(gpr := m2.gpr[5 := m2.word(Plus(0, m2.gpr[4]))]);
    m4 := m3.(ctr := m3.gpr[5]);
    ShiftedBound(1);
  }

  /** For the same code the tracker, which knows r0, has a table of eight entries there. */
  lemma ZeroBaseClaims()
    ensures var s := Knowing(r => if r == 0 then Constant(TABLE) else Unknown);
            && Sound(s, ZeroBased())
            && BranchToCtr(AfterIdiom(s, SITE, Cmpli(0, 3, 7), 3, 4, 0, 5), SITE)
               == JumpTable(Address(SectionAddress(0, TABLE)), Some(32))
  {
    var s := Knowing(r => if r == 0 then Constant(TABLE) else Unknown);
    IdiomSize(s, SITE, Cmpli(0, 3, 7), 3, 4, 0, 5, 7, Address(SectionAddress(0, TABLE)));
  }
}
