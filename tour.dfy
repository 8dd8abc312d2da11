/** Concrete runs over the map that `main` builds, as worked examples of the
    expedition. */
module Tour {
  import opened TextOrder
  import opened ClueTree
  import opened Mansion

  /** The rooms of `main`'s map, each as `criarSala` makes it with the doors
      `main` then links, built bottom-up: the entrance hall has the kitchen to
      its left and the library to its right; the kitchen leads to the pantry
      and the dining room, the library to the study and the winter garden, and
      the study's right door to the secret vault. */
  function Vault(): Room { Room("Cofre Secreto", "Documento confidencial", None, None) }
  function Study(): Room { Room("Escritorio", "Bilhete rasgado com a letra A", None, Some(Vault())) }
  function Garden(): Room { Room("Jardim de Inverno", "Luva perdida", None, None) }
  function Library(): Room { Room("Biblioteca", "", Some(Study()), Some(Garden())) }
  function Pantry(): Room { Room("Despensa", "Pegadas de lama tamanho 42", None, None) }
  function DiningRoom(): Room { Room("Sala de Jantar", "", None, None) }
  function Kitchen(): Room { Room("Cozinha", "Faca suja de geleia", Some(Pantry()), Some(DiningRoom())) }
  function Hall(): Room { Room("Hall de Entrada", "", Some(Kitchen()), Some(Library())) }

  /** Into the kitchen, a rejected command, into the dining room, a left
      command where there is no left door, then stop: only the kitchen's clue
      is collected, once, and the player stops in the dining room. */
  lemma KitchenThenDeadEnd()
    ensures var e := Run(Hall(), Empty, "exdes");
      e.stopped && e.room == DiningRoom() &&
      InOrder(e.inventory) == ["Faca suja de geleia"]
  {
  }

  /** Right, left, right reaches the vault; the script then runs out. The
      report lists the study's clue before the vault's. */
  lemma DownToTheVault()
    ensures var e := Run(Hall(), Empty, "ded");
      !e.stopped && e.room == Vault() &&
      InOrder(e.inventory) == ["Bilhete rasgado com a letra A", "Documento confidencial"]
  {
    var note, paper := "Bilhete rasgado com a letra A", "Documento confidencial";
    NoteBeforePaper();
    assert Insert(Node(Empty, note, Empty), paper) == Node(Empty, note, Node(Empty, paper, Empty));
  }

  /** The study's clue sorts before the vault's: their first letters differ. */
  lemma NoteBeforePaper()
    ensures Less("Bilhete rasgado com a letra A", "Documento confidencial")
    ensures !Less("Documento confidencial", "Bilhete rasgado com a letra A")
  {
  }
}
