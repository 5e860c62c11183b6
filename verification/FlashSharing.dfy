/** The settings in sector 0 and the variable store behind it share one chip without disturbing each
    other. */
module FlashSharing {
  import opened Bytes
  import opened Flash
  import opened VarFormat
  import Config

  /** Saving the settings keeps every stored variable. */
  lemma SaveKeepsStore(m: seq<byte>, vars: seq<Var>, s: Config.Settings)
    requires Represents(m, vars)
    ensures Represents(Config.SavedImage(m, s), vars)
  {
    hide SectorByte;
    var m' := Config.SavedImage(m, s);
    Config.SavedDecodes(m, s);
    AllHoldFrame(m, vars, m', 0);
    BlankFromFrame(m, m', 0, FIRST_SECTOR + |vars|);
  }

  /** No operation of the store changes what the settings decode to: each keeps the sectors in front. */
  lemma StoreKeepsSettings(m: seq<byte>, m': seq<byte>)
    requires IsImage(m) && IsImage(m') && Protected(m, m')
    ensures Config.Decode(m') == Config.Decode(m) && (Config.KeyStored(m') <==> Config.KeyStored(m))
  {
    forall a | 0 <= a < 32 ensures m'[a] == m[a] {
      assert m'[..Base(FIRST_SECTOR)][a] == m[..Base(FIRST_SECTOR)][a];
    }
  }
}
