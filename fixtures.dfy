/** The fixed strings `makeCSV` writes: the report header and the lists the
    random cells are drawn from. Each is typed as a `Name`, so that it is
    non-empty and holds neither a double quote nor a line feed is checked
    where it is declared. */
module Fixtures {

  /** A string the writer can quote without doubling and the preview can
      split into lines: no double quote, no line feed. */
  predicate Plain(s: string)
  {
    forall i :: 0 <= i < |s| ==> s[i] != '"' && s[i] != '\n'
  }

  type Text = s: string | Plain(s) witness ""

  /** A non-empty `Text`: a column name or a fixture value. */
  type Name = s: Text | s != "" witness "-"

  /** The report's 20 column names, in four groups. */
  const Header: seq<Name> := SampleColumns + ClassColumns + PredColumns + UmapColumns

  const SampleColumns: seq<Name> :=
    ["seq_id", "Sequence", "Marker", "Taxonomy", "Source", "Sample_ID", "Read_Count"]
  const ClassColumns: seq<Name> :=
    ["Taxonomic_Level", "Confidence_Score", "Location", "Depth_m", "kmer_sequence"]
  const PredColumns: seq<Name> :=
    ["pred_1", "pred_1_conf", "pred_2", "pred_2_conf", "pred_3", "pred_3_conf"]
  const UmapColumns: seq<Name> := ["umap_x", "umap_y"]

  const Markers: seq<Name> := ["COI", "18S"]
  const Sources: seq<Name> := ["CCLME", "DeepSEARCH", "Mendeley", "USGS"]
  const Locations: seq<Name> :=
    ["Seamount_B", "Trench_A", "Slope_B", "Vent_A", "AbyssalPlain_B", "Canyon_A", "Trench_B"]
  const TaxLevels: seq<Name> := ["species", "species_predicted", "genus", "family"]

  // The taxonomy fixture, one constant per species.
  const BacteroidesFragilis: Name := "Bacteroides fragilis"
  const PrevotellaCopri: Name := "Prevotella copri"
  const ParabacteroidesDistasonis: Name := "Parabacteroides distasonis"
  const FaecalibacteriumPrausnitzii: Name := "Faecalibacterium prausnitzii"
  const RuminococcusBromii: Name := "Ruminococcus bromii"
  const EubacteriumRectale: Name := "Eubacterium rectale"
  const RoseburiaIntestinalis: Name := "Roseburia intestinalis"
  const CoprococcusEutactus: Name := "Coprococcus eutactus"
  const AkkermansiaMuciniphila: Name := "Akkermansia muciniphila"
  const MethanobrevibacterSmithii: Name := "Methanobrevibacter smithii"
  const ClostridiumLeptum: Name := "Clostridium leptum"
  const BifidobacteriumLongum: Name := "Bifidobacterium longum"
  const LactobacillusReuteri: Name := "Lactobacillus reuteri"
  const EnterococcusFaecalis: Name := "Enterococcus faecalis"
  const EscherichiaColi: Name := "Escherichia coli"
  const BlautiaObeum: Name := "Blautia obeum"
  const DoreaLongicatena: Name := "Dorea longicatena"
  const AlistipesPutredinis: Name := "Alistipes putredinis"
  const SubdoligranulumVariabile: Name := "Subdoligranulum variabile"

  const Species: seq<Name> := [
    BacteroidesFragilis, PrevotellaCopri, ParabacteroidesDistasonis,
    FaecalibacteriumPrausnitzii, RuminococcusBromii, EubacteriumRectale,
    RoseburiaIntestinalis, CoprococcusEutactus, AkkermansiaMuciniphila,
    MethanobrevibacterSmithii, ClostridiumLeptum, BifidobacteriumLongum,
    LactobacillusReuteri, EnterococcusFaecalis, EscherichiaColi, BlautiaObeum,
    DoreaLongicatena, AlistipesPutredinis, SubdoligranulumVariabile]
}
